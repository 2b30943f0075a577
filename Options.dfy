/**
  The dropdowns of both dashboards: their option lists, built with
  `Continent.unique()` and `Year.unique()` or fixed, and their defaults.
 */
module Options {
  import opened Gapminder

  predicate NoDuplicates<T(==,!new)>(s: seq<T>) {
    forall i, j :: 0 <= i < j < |s| ==> s[i] != s[j]
  }

  /** The position of the first occurrence of `x` in `s`. */
  function FirstIndex<T(==,!new)>(s: seq<T>, x: T): (i: nat)
    requires x in s
    ensures i < |s| && s[i] == x && x !in s[..i]
  {
    if s[0] == x then 0
    else
      assert s == [s[0]] + s[1..];
      1 + FirstIndex(s[1..], x)
  }

  /** `unique()`: the distinct values of a column, in order of first appearance. */
  function Unique<T(==,!new)>(s: seq<T>): (u: seq<T>)
    ensures forall x :: x in u <==> x in s
    ensures NoDuplicates(u)
    decreases |s|
  {
    if s == [] then []
    else
      var prefix := Unique(s[..|s| - 1]);
      var last := s[|s| - 1];
      assert s == s[..|s| - 1] + [last];
      if last in prefix then prefix else prefix + [last]
  }

  /** Extending a sequence does not move the first occurrence of a value it already had. */
  lemma FirstIndexInPrefix<T(!new)>(s: seq<T>, k: nat, x: T)
    requires k <= |s| && x in s[..k]
    ensures FirstIndex(s, x) == FirstIndex(s[..k], x)
  {
  }

  /** `unique()` lists the values in order of their first appearance in the column. */
  lemma {:induction false} UniqueInFirstAppearanceOrder<T(!new)>(s: seq<T>)
    ensures forall i, j :: 0 <= i < j < |Unique(s)| ==> FirstIndex(s, Unique(s)[i]) < FirstIndex(s, Unique(s)[j])
    decreases |s|
  {
    if s != [] {
      var n := |s| - 1;
      var prefix, last := s[..n], s[n];
      UniqueInFirstAppearanceOrder(prefix);
      var u, up := Unique(s), Unique(prefix);
      forall x | x in up
        ensures FirstIndex(s, x) == FirstIndex(prefix, x) < n
      {
        FirstIndexInPrefix(s, n, x);
      }
      if last !in up {
        assert u == up + [last];
        assert FirstIndex(s, last) == n;
        forall i, j | 0 <= i < j < |u|
          ensures FirstIndex(s, u[i]) < FirstIndex(s, u[j])
        {
          assert u[i] == up[i];
          if j < |up| {
            assert u[j] == up[j];
          }
        }
      }
    }
  }

  function ContinentColumn(rows: seq<Row>): (col: seq<string>)
    ensures |col| == |rows|
    ensures forall i :: 0 <= i < |rows| ==> col[i] == rows[i].continent
  {
    if rows == [] then [] else [rows[0].continent] + ContinentColumn(rows[1..])
  }

  function YearColumn(rows: seq<Row>): (col: seq<int>)
    ensures |col| == |rows|
    ensures forall i :: 0 <= i < |rows| ==> col[i] == rows[i].year
  {
    if rows == [] then [] else [rows[0].year] + YearColumn(rows[1..])
  }

  /** The continent options: every continent of the table once, nothing else. */
  function ContinentOptions(rows: seq<Row>): (opts: seq<string>)
    ensures NoDuplicates(opts)
    ensures forall c :: c in opts <==> exists i :: 0 <= i < |rows| && rows[i].continent == c
  {
    var col := ContinentColumn(rows);
    assert forall c :: c in col ==> exists i :: 0 <= i < |rows| && rows[i].continent == c;
    Unique(col)
  }

  /** The year options: every year of the table once, nothing else. */
  function YearOptions(rows: seq<Row>): (opts: seq<int>)
    ensures NoDuplicates(opts)
    ensures forall y :: y in opts <==> exists i :: 0 <= i < |rows| && rows[i].year == y
  {
    var col := YearColumn(rows);
    assert forall y :: y in col ==> exists i :: 0 <= i < |rows| && rows[i].year == y;
    Unique(col)
  }

  /** The continent options follow the order in which each continent first
      appears in the table. */
  lemma ContinentOptionsInTableOrder(rows: seq<Row>)
    ensures forall i, j :: 0 <= i < j < |ContinentOptions(rows)| ==>
      FirstIndex(ContinentColumn(rows), ContinentOptions(rows)[i]) < FirstIndex(ContinentColumn(rows), ContinentOptions(rows)[j])
  {
    UniqueInFirstAppearanceOrder(ContinentColumn(rows));
  }

  /** The year options follow the order in which each year first appears
      in the table. */
  lemma YearOptionsInTableOrder(rows: seq<Row>)
    ensures forall i, j :: 0 <= i < j < |YearOptions(rows)| ==>
      FirstIndex(YearColumn(rows), YearOptions(rows)[i]) < FirstIndex(YearColumn(rows), YearOptions(rows)[j])
  {
    UniqueInFirstAppearanceOrder(YearColumn(rows));
  }

  /** A dropdown value: a continent or map variable name, or a year. */
  datatype Choice = Text(text: string) | Year(year: int)

  /** Where a dropdown's options come from. */
  datatype Source = Continents | Years | MapVariables

  /** The dropdowns' component ids. */
  datatype DropdownId = ContPop | YearPop | ContGdp | YearGdp | ContLifeExp | YearLifeExp | YearMap | VarMap

  /** The id string each dropdown is registered under. */
  function DropdownName(id: DropdownId): string {
    match id
    case ContPop => "cont_pop"
    case YearPop => "year_pop"
    case ContGdp => "cont_gdp"
    case YearGdp => "year_gdp"
    case ContLifeExp => "cont_life_exp"
    case YearLifeExp => "year_life_exp"
    case YearMap => "year_map"
    case VarMap => "var_map"
  }

  datatype Dropdown = Dropdown(id: DropdownId, source: Source, default: Choice)

  /** The fixed options of the map-variable dropdown. */
  const MapVariableNames: seq<string> := ["Population", "GDP per Capita", "Life Expectancy"]

  /** The eight dropdowns, identical in both dashboards. */
  const Dropdowns: seq<Dropdown> := [
    Dropdown(ContPop, Continents, Text("Asia")),
    Dropdown(YearPop, Years, Year(1952)),
    Dropdown(ContGdp, Continents, Text("Asia")),
    Dropdown(YearGdp, Years, Year(1952)),
    Dropdown(ContLifeExp, Continents, Text("Asia")),
    Dropdown(YearLifeExp, Years, Year(1952)),
    Dropdown(YearMap, Years, Year(1952)),
    Dropdown(VarMap, MapVariables, Text("Life Expectancy"))
  ]

  function TextChoices(s: seq<string>): (cs: seq<Choice>)
    ensures |cs| == |s|
    ensures forall i :: 0 <= i < |s| ==> cs[i] == Text(s[i])
  {
    if s == [] then [] else [Text(s[0])] + TextChoices(s[1..])
  }

  function YearChoices(s: seq<int>): (cs: seq<Choice>)
    ensures |cs| == |s|
    ensures forall i :: 0 <= i < |s| ==> cs[i] == Year(s[i])
  {
    if s == [] then [] else [Year(s[0])] + YearChoices(s[1..])
  }

  /** The options a dropdown offers over table `rows`. */
  function OptionsOf(d: Dropdown, rows: seq<Row>): seq<Choice> {
    match d.source
    case Continents => TextChoices(ContinentOptions(rows))
    case Years => YearChoices(YearOptions(rows))
    case MapVariables => TextChoices(MapVariableNames)
  }

  /** The map-variable dropdown's default, "Life Expectancy", is one of its options. */
  lemma MapVariableDefaultOffered(rows: seq<Row>)
    ensures Dropdowns[7].id == VarMap
    ensures Dropdowns[7].default in OptionsOf(Dropdowns[7], rows)
  {
    assert OptionsOf(Dropdowns[7], rows)[2] == Text("Life Expectancy");
  }

  /** The map-variable options are exactly the headers of the three metric columns. */
  lemma MapVariablesAreMetricColumns()
    ensures forall v :: v in MapVariableNames <==> MetricOfColumn(v).Some?
  {
    forall v | MetricOfColumn(v).Some?
      ensures v in MapVariableNames
    {
      assert v == ColumnName(MetricOfColumn(v).value);
    }
  }

  /** Every dropdown is declared once, under an id string of its own. */
  lemma DropdownIdsDistinct()
    ensures forall i, j :: 0 <= i < j < |Dropdowns| ==> Dropdowns[i].id != Dropdowns[j].id
    ensures forall a, b :: a != b ==> DropdownName(a) != DropdownName(b)
  {
  }
}
