/**
  The wiring of both dashboards: the four update callbacks, the tab content
  that `render_tab` builds on demand (bar-chart dashboard) and the static tab
  children (pie-chart dashboard). The Dash callback engine that fires a
  callback when one of its inputs changes is not modelled; what is modelled is
  which dropdowns and graphs each callback names and where they appear.
 */
module Layout {
  import opened Wrappers
  import opened Gapminder
  import opened Charts
  import opened Options

  /** What an update callback draws. */
  datatype Plot = RankedBy(metric: Metric) | MapOfYear

  /** The graphs' component ids. */
  datatype GraphId = DatasetGraph | PopulationGraph | GdpGraph | LifeExpectancyGraph | ChoroplethMapGraph

  /** The id string each graph is registered under. */
  function GraphName(id: GraphId): string {
    match id
    case DatasetGraph => "dataset"
    case PopulationGraph => "population"
    case GdpGraph => "gdp"
    case LifeExpectancyGraph => "life_expectancy"
    case ChoroplethMapGraph => "choropleth_map"
  }

  /** One `@callback`: the dropdowns it reads, in argument order, the graph
      whose figure it sets, and what it draws there. */
  datatype Callback = Callback(inputs: seq<DropdownId>, output: GraphId, plot: Plot)

  /** The four update callbacks, the same in both dashboards. */
  const Callbacks: seq<Callback> := [
    Callback([ContPop, YearPop], PopulationGraph, RankedBy(Population)),
    Callback([ContGdp, YearGdp], GdpGraph, RankedBy(GdpPerCapita)),
    Callback([ContLifeExp, YearLifeExp], LifeExpectancyGraph, RankedBy(LifeExpectancy)),
    Callback([VarMap, YearMap], ChoroplethMapGraph, MapOfYear)
  ]

  /** The figure a callback returns for its two dropdown values: `first` is the
      continent of a ranked chart or the variable of the map. The map colours
      by the column named `first`; a name that is no metric column has no
      figure (plotting it fails). */
  function UpdateFigure(v: Variant, rows: seq<Row>, cb: Callback, first: string, year: int): (fig: Option<ChartSpec>)
    ensures fig.None? <==> cb.plot.MapOfYear? && MetricOfColumn(first).None?
    ensures fig.Some? && cb.plot.RankedBy? ==> fig.value.kind == RankedKind(v) && |fig.value.labels| <= TopN
    ensures fig.Some? && cb.plot.MapOfYear? ==> fig.value.kind == Choropleth
    ensures cb.plot.RankedBy? ==> fig == Some(RankedChart(RankedKind(v), rows, first, year, cb.plot.metric))
    ensures fig.Some? && cb.plot.MapOfYear? ==> fig.value == ChoroplethMap(rows, MetricOfColumn(first).value, year)
  {
    match cb.plot
    case RankedBy(m) => Some(RankedChart(RankedKind(v), rows, first, year, m))
    case MapOfYear =>
      match MetricOfColumn(first)
      case None => None
      case Some(m) => Some(ChoroplethMap(rows, m, year))
  }

  /** No callback fails on values its dropdowns offer: called with an
      option of the dropdown it reads first (a continent or a map variable)
      and an option of the one it reads second (a year), every callback
      draws a figure. */
  lemma UpdateNeverFailsOnOfferedValues(v: Variant, rows: seq<Row>, cb: Callback, first: Dropdown, second: Dropdown, a: Choice, b: Choice)
    requires cb in Callbacks && first in Dropdowns && second in Dropdowns
    requires cb.inputs == [first.id, second.id]
    requires a in OptionsOf(first, rows) && b in OptionsOf(second, rows)
    ensures a.Text? && b.Year?
    ensures UpdateFigure(v, rows, cb, a.text, b.year).Some?
  {
    OfferedChoiceKind(first, a, rows);
    OfferedChoiceKind(second, b, rows);
    SecondInputReadsYears(cb, second);
    if cb.plot.MapOfYear? {
      MapCallbackReadsVariables(cb, first);
    }
    FigureForName(v, rows, cb, a.text, b.year);
  }

  /** A callback draws a figure for any continent, and for any map variable. */
  lemma FigureForName(v: Variant, rows: seq<Row>, cb: Callback, name: string, year: int)
    requires cb.plot.MapOfYear? ==> name in MapVariableNames
    ensures UpdateFigure(v, rows, cb, name, year).Some?
  {
    MapVariablesAreMetricColumns();
  }

  /** A dropdown offers names unless it lists years; the map-variable
      dropdown offers only the three column names. */
  lemma OfferedChoiceKind(d: Dropdown, o: Choice, rows: seq<Row>)
    requires o in OptionsOf(d, rows)
    ensures d.source != Years ==> o.Text?
    ensures d.source == Years ==> o.Year?
    ensures d.source == MapVariables ==> o.Text? && o.text in MapVariableNames
  {
    match d.source
    case Continents =>
      var cs := TextChoices(ContinentOptions(rows));
      var i :| 0 <= i < |cs| && cs[i] == o;
    case Years =>
      var cs := YearChoices(YearOptions(rows));
      var i :| 0 <= i < |cs| && cs[i] == o;
    case MapVariables =>
      var cs := TextChoices(MapVariableNames);
      var i :| 0 <= i < |cs| && cs[i] == o;
  }

  /** The map callback's first input is the map-variable dropdown. */
  lemma MapCallbackReadsVariables(cb: Callback, d: Dropdown)
    requires cb in Callbacks && d in Dropdowns && cb.plot.MapOfYear?
    requires |cb.inputs| > 0 && d.id == cb.inputs[0]
    ensures d.source == MapVariables
  {
  }

  /** Every callback's second input is a year dropdown. */
  lemma SecondInputReadsYears(cb: Callback, d: Dropdown)
    requires cb in Callbacks && d in Dropdowns
    requires |cb.inputs| > 1 && d.id == cb.inputs[1]
    ensures d.source == Years
  {
  }

  /** A group of components shown together: the dropdowns among them, in
      order, and the id of their graph (None for a graph without an id). */
  datatype Panel = Panel(dropdowns: seq<DropdownId>, graph: Option<GraphId>)

  /** The five tabs of the vertical tab strip. */
  datatype Tab = Tab1 | Tab2 | Tab3 | Tab4 | Tab5

  /** The value each tab reports when selected. */
  function TabValue(t: Tab): string {
    match t
    case Tab1 => "tab1"
    case Tab2 => "tab2"
    case Tab3 => "tab3"
    case Tab4 => "tab4"
    case Tab5 => "tab5"
  }

  /** The content `render_tab` builds for each tab: the table in a graph
      without an id, or the two dropdowns and the graph of one chart. */
  function TabPanel(t: Tab): Panel {
    match t
    case Tab1 => Panel([], None)
    case Tab2 => Panel([ContPop, YearPop], Some(PopulationGraph))
    case Tab3 => Panel([ContGdp, YearGdp], Some(GdpGraph))
    case Tab4 => Panel([ContLifeExp, YearLifeExp], Some(LifeExpectancyGraph))
    case Tab5 => Panel([VarMap, YearMap], Some(ChoroplethMapGraph))
  }

  /** `render_tab`: the content shown for the selected tab value; a value
      that is not one of the five tabs shows nothing. */
  function RenderTab(tab: string): (content: Option<Panel>)
    ensures forall t :: tab == TabValue(t) ==> content == Some(TabPanel(t))
    ensures content.Some? ==> exists t :: tab == TabValue(t)
  {
    if tab == TabValue(Tab1) then Some(TabPanel(Tab1))
    else if tab == TabValue(Tab2) then Some(TabPanel(Tab2))
    else if tab == TabValue(Tab3) then Some(TabPanel(Tab3))
    else if tab == TabValue(Tab4) then Some(TabPanel(Tab4))
    else if tab == TabValue(Tab5) then Some(TabPanel(Tab5))
    else None
  }

  /** The children of the five static `dcc.Tab`s, in order: Dataset,
      Population, GDP Per Capita, Life Expectancy, Choropleth Map. */
  const StaticPanels: seq<Panel> := [
    Panel([], Some(DatasetGraph)),
    Panel([ContPop, YearPop], Some(PopulationGraph)),
    Panel([ContGdp, YearGdp], Some(GdpGraph)),
    Panel([ContLifeExp, YearLifeExp], Some(LifeExpectancyGraph)),
    Panel([VarMap, YearMap], Some(ChoroplethMapGraph))
  ]

  /** The panels a dashboard can show, one per tab, in tab order. */
  function Panels(v: Variant): seq<Panel> {
    match v
    case CallbackTabs => [TabPanel(Tab1), TabPanel(Tab2), TabPanel(Tab3), TabPanel(Tab4), TabPanel(Tab5)]
    case StaticTabs => StaticPanels
  }

  /** A callback is confined to one tab: some panel holds exactly its
      dropdowns and its graph, and no other panel holds any of them. */
  ghost predicate ConfinedToOnePanel(cb: Callback, panels: seq<Panel>) {
    && (exists k :: 0 <= k < |panels| && panels[k] == Panel(cb.inputs, Some(cb.output)))
    && forall k :: 0 <= k < |panels| && panels[k].graph != Some(cb.output) ==>
         forall d :: d in cb.inputs ==> d !in panels[k].dropdowns
  }

  /** In both dashboards the first tab (the dataset) holds no dropdown, and
      every callback's inputs and output sit in the same tab, which holds
      nothing else a callback reads. */
  lemma CallbacksConfinedToTabs(v: Variant)
    ensures |Panels(v)| == 5 && Panels(v)[0].dropdowns == []
    ensures forall cb :: cb in Callbacks ==> ConfinedToOnePanel(cb, Panels(v))
  {
    forall cb | cb in Callbacks
      ensures ConfinedToOnePanel(cb, Panels(v))
    {
      var k :| 0 <= k < |Callbacks| && Callbacks[k] == cb;
      CallbackConfined(v, k);
    }
  }

  /** The `k`-th callback sits in tab `k + 2` and nowhere else. */
  lemma CallbackConfined(v: Variant, k: nat)
    requires k < |Callbacks|
    ensures |Panels(v)| == 5 && Panels(v)[k + 1] == Panel(Callbacks[k].inputs, Some(Callbacks[k].output))
    ensures ConfinedToOnePanel(Callbacks[k], Panels(v))
  {
    var panels, cb := Panels(v), Callbacks[k];
    assert panels[k + 1] == Panel(cb.inputs, Some(cb.output));
  }

  /** `render_tab` pairs tab2 to tab5 with the dropdowns and graph of the
      population, GDP, life-expectancy and map callbacks, in that order, and
      tab1 with no dropdown. */
  lemma RenderTabMatchesCallbacks()
    ensures RenderTab("tab1") == Some(Panel([], None))
    ensures RenderTab("tab2") == Some(Panel(Callbacks[0].inputs, Some(Callbacks[0].output)))
    ensures RenderTab("tab3") == Some(Panel(Callbacks[1].inputs, Some(Callbacks[1].output)))
    ensures RenderTab("tab4") == Some(Panel(Callbacks[2].inputs, Some(Callbacks[2].output)))
    ensures RenderTab("tab5") == Some(Panel(Callbacks[3].inputs, Some(Callbacks[3].output)))
  {
  }

  /** The inputs of a list of callbacks, one after another. */
  function InputsOf(cbs: seq<Callback>): seq<DropdownId> {
    if cbs == [] then [] else cbs[0].inputs + InputsOf(cbs[1..])
  }

  /** Every dropdown is read by exactly one callback. */
  lemma EachDropdownFeedsOneCallback()
    ensures forall d: DropdownId :: d in InputsOf(Callbacks)
    ensures NoDuplicates(InputsOf(Callbacks))
  {
    var all := InputsOf(Callbacks);
    assert all == [ContPop, YearPop, ContGdp, YearGdp, ContLifeExp, YearLifeExp, VarMap, YearMap];
    forall d: DropdownId
      ensures d in all
    {
      match d
      case ContPop => assert all[0] == d;
      case YearPop => assert all[1] == d;
      case ContGdp => assert all[2] == d;
      case YearGdp => assert all[3] == d;
      case ContLifeExp => assert all[4] == d;
      case YearLifeExp => assert all[5] == d;
      case VarMap => assert all[6] == d;
      case YearMap => assert all[7] == d;
    }
  }

  /** The four callbacks set four different graphs, registered under
      pairwise distinct id strings. */
  lemma CallbackOutputsDistinct()
    ensures forall i, j :: 0 <= i < j < |Callbacks| ==> GraphName(Callbacks[i].output) != GraphName(Callbacks[j].output)
    ensures forall a, b :: a != b ==> GraphName(a) != GraphName(b)
  {
  }
}
