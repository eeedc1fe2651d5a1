/** The finished records the reporting layer reads: one `performance_metrics`
    per benchmark and the `stage` holding them, plus the fixed list of labelled
    fields that both the console printer and the Markdown report walk. */
module Metrics {
  import opened Wrappers

  /** One benchmark's finished record. Optional fields are absent when the
      hardware counter behind them could not be read; absence is not zero. */
  datatype Metric = Metric(
    name: string,
    bytesProcessed: Option<real>,
    throughput: real,
    throughputDeviation: real,
    instructionsPerExecution: Option<real>,
    instructionsDeviation: Option<real>,
    instructionsPerCycle: Option<real>,
    instructionsPerByte: Option<real>,
    branchesPerExecution: Option<real>,
    branchMissesPerExecution: Option<real>,
    cyclesPerExecution: Option<real>,
    cyclesDeviation: Option<real>,
    cyclesPerByte: Option<real>,
    frequencyGhz: Option<real>,
    totalIterations: Option<nat>)

  /** A stage as handed to the reporting layer. An empty `baseline` means "use
      the slowest result". */
  datatype Stage = Stage(
    name: string,
    baseline: string,
    processedUnitsLabel: string,
    throughputUnitsLabel: string,
    results: seq<Metric>)

  /** A printed quantity: a double (shown with a precision) or a count (shown as is). */
  datatype Reading = Real(x: real) | Count(n: nat)

  /** A labelled row of a report; `value` is absent when the optional is empty. */
  datatype Field = Field(caption: string, value: Option<Reading>)

  /** Number of rows per record in both reports. */
  const FieldCount: nat := 14

  function ProcessedLabel(stage: Stage): string {
    stage.processedUnitsLabel + " Processed"
  }

  function ThroughputLabel(stage: Stage): string {
    "Throughput (" + stage.throughputUnitsLabel + ")"
  }

  function RealField(caption: string, v: Option<real>): (f: Field)
    ensures f.caption == caption
    ensures f.value.None? <==> v.None?
    ensures v.Some? ==> f.value == Some(Real(v.value))
  {
    match v
    case None => Field(caption, None)
    case Some(x) => Field(caption, Some(Real(x)))
  }

  /** The labelled rows of one record, in the order both reports print them. */
  function Fields(stage: Stage, m: Metric): (fs: seq<Field>)
    ensures |fs| == FieldCount
    ensures fs[1].value == Some(Real(m.throughput)) && fs[2].value == Some(Real(m.throughputDeviation))
  {
    [ RealField(ProcessedLabel(stage), m.bytesProcessed),
      Field(ThroughputLabel(stage), Some(Real(m.throughput))),
      Field("Throughput MAD (±%)", Some(Real(m.throughputDeviation))),
      RealField("Instructions per Execution", m.instructionsPerExecution),
      RealField("Instructions Percentage Deviation (±%)", m.instructionsDeviation),
      RealField("Instructions per Cycle", m.instructionsPerCycle),
      RealField("Instructions per Byte", m.instructionsPerByte),
      RealField("Branches per Execution", m.branchesPerExecution),
      RealField("Branch Misses per Execution", m.branchMissesPerExecution),
      RealField("Cycles per Execution", m.cyclesPerExecution),
      RealField("Cycles Percentage Deviation (±%)", m.cyclesDeviation),
      RealField("Cycles per Byte", m.cyclesPerByte),
      RealField("Frequency (GHz)", m.frequencyGhz),
      match m.totalIterations
      case None => Field("Total Iterations", None)
      case Some(n) => Field("Total Iterations", Some(Count(n)))
    ]
  }

  function Names(ms: seq<Metric>): (ns: seq<string>)
    ensures |ns| == |ms|
    ensures forall i :: 0 <= i < |ms| ==> ns[i] == ms[i].name
  {
    seq(|ms|, i requires 0 <= i < |ms| => ms[i].name)
  }

  function Throughputs(ms: seq<Metric>): (ts: seq<real>)
    ensures |ts| == |ms|
    ensures forall i :: 0 <= i < |ms| ==> ts[i] == ms[i].throughput
  {
    seq(|ms|, i requires 0 <= i < |ms| => ms[i].throughput)
  }
}
