/** The glue between a stage and the two charts: `bar_chart(stage)` feeds the
    stage's names and throughputs to the SVG chart, `print_bar_chart` guards the
    console chart, and `print_results` ends its comparison with that chart. */
module StageCharts {
  import opened Wrappers
  import opened HexColor
  import opened Metrics
  import opened SvgChart
  import ConsoleChart
  import ConsoleReport

  /** The two built-in palettes. */
  const BrightTheme: seq<string> := ["#4CAF50", "#2196F3", "#FF9800", "#9C27B0", "#F44336",
                                     "#009688", "#3F51B5", "#795548", "#00BCD4", "#E91E63"]
  const DarkTheme: seq<string> := ["#1B5E20", "#0D47A1", "#E65100", "#4A148C", "#B71C1C",
                                   "#004D40", "#283593", "#3E2723", "#006064", "#880E4F"]

  /** The parts of `chart_config` that the chart's decisions depend on. */
  datatype ChartConfig = ChartConfig(yAxisLabel: string, colours: seq<string>)

  const DefaultConfig: ChartConfig := ChartConfig("MB/s", BrightTheme)

  datatype StageChart = StageChart(yAxisLabel: string, plan: Result<ChartPlan, ChartError>)

  /** `bar_chart(stage, cfg)`: one bar per record, in stage order, with the
      stage's throughput unit as the axis label when the configuration has none. */
  function StageBarChart(stage: Stage, cfg: ChartConfig): (c: StageChart)
    ensures c.yAxisLabel == if cfg.yAxisLabel == "" then stage.throughputUnitsLabel else cfg.yAxisLabel
    ensures c.plan != Err(LengthMismatch)
    ensures c.plan.Ok? <==> forall i :: 0 <= i < |cfg.colours| ==> HexToRgb(cfg.colours[i]).Ok?
    ensures c.plan.Ok? ==> |c.plan.value.bars| == |stage.results|
    ensures c.plan.Ok? ==> forall i :: 0 <= i < |stage.results| ==>
              c.plan.value.bars[i]
              == BarPlan(stage.results[i].name, stage.results[i].throughput, BarFill(i, |cfg.colours|))
  {
    var ms := stage.results;
    var tag := if cfg.yAxisLabel == "" then stage.throughputUnitsLabel else cfg.yAxisLabel;
    StageChart(tag, GenerateBarChart(Names(ms), Throughputs(ms), cfg.colours))
  }

  /** What `print_bar_chart` does: one of its two error messages, or the chart. */
  datatype ConsoleOutput = SizeError | EmptyError | Printed(text: string)

  /** `print_bar_chart`: the size and emptiness checks, then the console chart. */
  function PrintBarChart(names: seq<string>, values: seq<real>, render: real -> string): (o: ConsoleOutput)
    requires ConsoleChart.ChartDefined(names, values)
    ensures o == SizeError <==> |names| != |values|
    ensures o == EmptyError <==> |names| == |values| && |names| == 0
    ensures o.Printed? <==> ConsoleChart.FormatBarChart(names, values, render) != []
  {
    if |names| != |values| then SizeError
    else if |names| == 0 then EmptyError
    else Printed(ConsoleChart.FormatBarChart(names, values, render))
  }

  /** The chart `print_results` prints after its comparison, if any: one line per
      record, printed even when the baseline's throughput is 0. */
  function ComparisonChart(stage: Stage, showComparison: bool, render: real -> string): (o: Option<ConsoleOutput>)
    requires showComparison && |stage.results| > 1 ==>
               ConsoleChart.ChartDefined(Names(stage.results), Throughputs(stage.results))
    ensures o.Some? <==> !ConsoleReport.CompareResults(stage, showComparison).Skipped?
    ensures o.Some? ==> o.value.Printed?
  {
    if showComparison && |stage.results| > 1 then
      Some(PrintBarChart(Names(stage.results), Throughputs(stage.results), render))
    else None
  }

  // ---------------------------------------------------------------------------
  // Lemmas
  // ---------------------------------------------------------------------------

  /** Every colour of both built-in palettes parses, so neither makes the chart throw. */
  lemma ThemesParse()
    ensures forall i :: 0 <= i < |BrightTheme| ==> HexToRgb(BrightTheme[i]).Ok?
    ensures forall i :: 0 <= i < |DarkTheme| ==> HexToRgb(DarkTheme[i]).Ok?
  {
    forall i | 0 <= i < |BrightTheme| ensures HexToRgb(BrightTheme[i]).Ok? {
      WellFormedParses(BrightTheme[i]);
    }
    forall i | 0 <= i < |DarkTheme| ensures HexToRgb(DarkTheme[i]).Ok? {
      WellFormedParses(DarkTheme[i]);
    }
  }

  /** A `#` and six digits always parse. */
  lemma WellFormedParses(hex: string)
    requires |hex| == 7 && hex[0] == '#'
    requires forall k :: 1 <= k < 7 ==> IsHexDigit(hex[k])
    ensures HexToRgb(hex).Ok?
  {
    assert AllHexDigits(hex[1..]) by {
      forall k | 0 <= k < 6 ensures IsHexDigit(hex[1..][k]) {
        assert hex[1..][k] == hex[k + 1];
      }
    }
    CanonicalForm(hex);
  }

  /** With the default configuration every stage charts: axis label `MB/s`, bars
      coloured round the bright palette. */
  lemma DefaultConfigCharts(stage: Stage)
    ensures var c := StageBarChart(stage, DefaultConfig);
            c.yAxisLabel == "MB/s" && c.plan.Ok?
            && forall i :: 0 <= i < |stage.results| ==> c.plan.value.bars[i].fill == Gradient(i % 10)
  {
    ThemesParse();
  }

  /** A stage whose throughputs are non-negative, as a count over a time is,
      meets the chart's cast precondition. */
  lemma StageChartDefined(stage: Stage)
    requires forall i :: 0 <= i < |stage.results| ==> stage.results[i].throughput >= 0.0
    ensures ConsoleChart.ChartDefined(Names(stage.results), Throughputs(stage.results))
  {
    ConsoleChart.NonNegativeChartDefined(Names(stage.results), Throughputs(stage.results));
  }

  /** When the comparison runs, the chart after it shows exactly one line per
      record, each record's bar and label in stage order, every line ending in a
      newline. */
  lemma ComparisonChartLines(stage: Stage, showComparison: bool, render: real -> string)
    requires showComparison && |stage.results| > 1
    requires ConsoleChart.ChartDefined(Names(stage.results), Throughputs(stage.results))
    requires forall j :: 0 <= j < |stage.results| ==> ConsoleChart.NoNewline(stage.results[j].name)
    requires forall v :: ConsoleChart.NoNewline(render(v))
    ensures var o := ComparisonChart(stage, showComparison, render);
            var ms := stage.results;
            var lines := ConsoleChart.SplitLines(o.value.text);
            o.Some? && o.value.Printed? && |lines| == |ms|
            && (forall j :: 0 <= j < |ms| ==>
                  lines[j] == ConsoleChart.EntryText(ms[j].name, ms[j].throughput,
                                                     ConsoleChart.MaxOf(Throughputs(ms)), render))
            && ConsoleChart.JoinLines(lines) == o.value.text
  {
    var ms := stage.results;
    var names := Names(ms);
    assert forall j :: 0 <= j < |names| ==> ConsoleChart.NoNewline(names[j]);
    ConsoleChart.OneLinePerEntry(names, Throughputs(ms), render);
  }
}
