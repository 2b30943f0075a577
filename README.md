# Gapminder dashboards in Dafny

This project models the data logic of two Dash dashboards over the Gapminder
table:

- `4710/practice_dash_1.py` shows bar charts. Its tab content is built on demand by the `render_tab` callback.
- `prac_dash.py` shows pie charts. Its five `dcc.Tab`s have fixed children.

Both dashboards read the same table and offer the same eight dropdowns. Both
wire the same four update callbacks:

- population, GDP per capita and life expectancy, each for a continent and a year;
- a choropleth map for a variable and a year.

A ranked chart draws `df[(Continent == c) & (Year == y)]`, sorted descending by
one metric, cut to its first 15 rows. The map draws `df[Year == y]`, coloured
by the chosen column.

Modules:

- `Gapminder` (`Gapminder.dfy`): the table row, the three metrics and their
  column headers, and the boolean-mask selection `df[mask]` with its
  table-order guarantee.
- `Charts` (`Charts.dfy`): the top-15 ranking shared by the six ranked charts,
  the figure data of a ranked chart and of the map, and the proof that the
  plotted values do not depend on how the sort orders equal values.
- `Options` (`Options.dfy`): `unique()`, the continent and year option lists,
  the eight dropdowns with their ids, sources and defaults.
- `Layout` (`Layout.dfy`): the four callbacks, `render_tab`, the static tab
  children, and where each callback's inputs and output appear.
- `Wrappers` (`Wrappers.dfy`): `Option`, standing for Python's `None`.

A figure is modelled by its kind (bar, pie or choropleth) and its marks: one
category per mark and its value. A category is a country name, or an ISO-3 code
on the map. The sort behind the ranking is `sort_values(ascending=False)` with
pandas' default quicksort, which is not stable. The model therefore states
every ranking property for ANY descending rearrangement of the matching rows.
Insertion sort (`Charts.SortDescending`) is one such rearrangement. The model
promises no order among rows with equal values.
`Charts.RankingValuesDetermined` shows that the plotted values are the same
whatever that order is.

## Model

| member | source | states |
|---|---|---|
| Gapminder.MetricOfColumn | 4710/practice_dash_1.py:46-52 | The column the map colours by: a name maps to the metric whose header it is, every metric header is recognised, and any other name maps to None. |
| Gapminder.Select | 4710/practice_dash_1.py:23 | `df[mask]` keeps exactly the rows of the table that pass the mask, and never more rows than the table has. |
| Gapminder.SelectKeepsTableOrder | 4710/practice_dash_1.py:47 | The selection keeps table order. Its k-th row is the table row at the k-th passing position. Those positions strictly increase. Every passing row's position is among them, so nothing is dropped. |
| Charts.SortDescending | 4710/practice_dash_1.py:24 | The descending sort returns a rearrangement of its input (the same multiset) in non-increasing order of the metric. |
| Charts.RankingPrefixIsTop | 4710/practice_dash_1.py:24 | The first n rows of any descending rearrangement form a top-n selection. There are min(n, size) of them. They are drawn from the input, and are all of it when it has at most n rows. They stay in descending order. No row left out has a larger value than a row kept. |
| Charts.TopRows | 4710/practice_dash_1.py:22-24 | The rows a ranked chart shows. There are min(15, number of matches) of them. Each comes from the table with the requested continent and year. They are in non-increasing order of the metric. They are all the matches when there are at most 15. No matching row left out beats a row kept. |
| Charts.RankedChart | prac_dash.py:35-80 | A ranked figure (bar or pie) shows the top rows: its labels are the countries of `TopRows` and its values their metric values, in ranking order. So there are at most 15 marks, values are non-increasing, and each (country, value) pair is a row of that continent and year. No match gives an empty figure. |
| Charts.RankingValuesDetermined | 4710/practice_dash_1.py:24 | Any two descending rearrangements of the same rows give the same sequence of metric values, so the non-stable sort only reorders countries with equal values. |
| Charts.ChartValuesIgnoreTieOrder | prac_dash.py:36-38 | The values a ranked chart plots equal the first 15 values of any descending rearrangement of the matching rows. |
| Charts.ChoroplethMap | 4710/practice_dash_1.py:46-55 | The map has exactly as many regions as the table has year-y rows. Every row of year y appears. Each (ISO code, value) pair comes from a row of year y. There is no ranking and no cut-off. |
| Charts.ChoroplethInTableOrder | prac_dash.py:83-94 | The map's k-th region and value are those of the k-th year-y row in table order. Positions strictly increase, and every year-y row is drawn. |
| Options.FirstIndex | 4710/practice_dash_1.py:58-59 | The first occurrence of a value: it is at that position and not earlier. |
| Options.Unique | 4710/practice_dash_1.py:58-59 | `unique()` returns exactly the values of the column, each once. |
| Options.UniqueInFirstAppearanceOrder | 4710/practice_dash_1.py:58-59 | `unique()` lists the values in the order of their first appearance in the column. |
| Options.ContinentOptions | 4710/practice_dash_1.py:58 | The continent options hold every continent of the table exactly once and nothing else. |
| Options.YearOptions | prac_dash.py:106 | The year options hold every year of the table exactly once and nothing else. |
| Options.ContinentOptionsInTableOrder | 4710/practice_dash_1.py:58 | The continent options are listed in the order of each continent's first row in the table. |
| Options.YearOptionsInTableOrder | 4710/practice_dash_1.py:59 | The year options are listed in the order of each year's first row in the table. |
| Options.MapVariableDefaultOffered | 4710/practice_dash_1.py:71-76 | The `var_map` default "Life Expectancy" is one of that dropdown's options. |
| Options.MapVariablesAreMetricColumns | prac_dash.py:118-123 | The three `var_map` options are exactly the headers of the three metric columns. |
| Options.DropdownIdsDistinct | 4710/practice_dash_1.py:61-76 | The eight dropdowns are declared once each, with pairwise distinct id strings. |
| Layout.UpdateFigure | 4710/practice_dash_1.py:113-127 | Each ranked callback returns the ranked chart of its own metric, for the chosen continent and year: a bar chart in the callback-tab dashboard, a pie chart in the static-tab dashboard, with at most 15 marks. The map callback returns the choropleth of the chosen year, coloured by the metric whose column is named. The figure is missing exactly when that name is not a metric column. |
| Layout.UpdateNeverFailsOnOfferedValues | prac_dash.py:178-192 | Call a callback with an option of the dropdown it reads first and an option of the dropdown it reads second, as declared in `Dropdowns`. The first is a name (a continent or a map variable) and the second is a year, and the callback always produces a figure. |
| Layout.RenderTab | 4710/practice_dash_1.py:130-173 | `render_tab` maps "tab1".."tab5" to their tab's content, and any other value to None. |
| Layout.RenderTabMatchesCallbacks | 4710/practice_dash_1.py:131-173 | Tab1 has no dropdown. Tabs 2 to 5 show exactly the two dropdowns of the population, GDP, life-expectancy and map callbacks, in argument order, with that callback's graph. |
| Layout.CallbacksConfinedToTabs | prac_dash.py:130-167 | In both dashboards there are five tabs, and the first (the dataset) holds no dropdown. Each callback's two inputs and its output sit together in one tab, and no other tab holds any of its inputs. |
| Layout.CallbackConfined | prac_dash.py:132-167 | The k-th callback's inputs and graph are exactly the children of tab k+2, in the order Population, GDP Per Capita, Life Expectancy, Choropleth Map. That tab is the only one holding them. |
| Layout.CallbackOutputsDistinct | 4710/practice_dash_1.py:113-127 | The four callbacks set four different graphs, and the graph ids are pairwise distinct strings. |
| Layout.EachDropdownFeedsOneCallback | 4710/practice_dash_1.py:113-127 | Every one of the eight dropdowns is an input of exactly one callback. |

## Left out

- The Dash runtime is not modelled: the server, when callbacks fire, the order in which they fire, and how outputs are rendered. The model states which components each callback names and what it returns for given inputs.
- Loading the Gapminder dataset (`gapminder(...)`, the year conversion) is left out. Every operation takes the table rows as a parameter.
- `create_table` and the Dataset tab's table figure are left out. They only display the table.
- Titles, colours, heights, margins, CSS and other styling are left out. A figure is modelled by its kind and its marks.
- Floating-point values are modelled as exact reals. Population is an integer and is compared through its real value.
- Charts.SortDescending: promises no order among rows with equal metric values, because pandas' default quicksort is not stable. Every property is proved for any descending rearrangement instead.
- Layout.UpdateFigure: a `var_map` value that is not a metric column gives no figure (None). The source would pass such a name on to the plotting library, whose behaviour is not part of this model.
- Whether the defaults "Asia" and 1952 occur in the table depends on the data. Only the `var_map` default is proved to be among its options.
- The dropdowns' `clearable=False` is not modelled: a dropdown is assumed to always hold a value, so callbacks are never called with None.
- The tab strip's initial value 'tab1' is not modelled. `Layout.RenderTab` covers every value the strip can report.
