/** The decisions `print_results` makes: which rows of a record it prints, with
    what precision, which record it compares against, and which records it
    reports as faster than that baseline. Console text itself is not modelled. */
module ConsoleReport {
  import opened Wrappers
  import opened Metrics

  /** The rows printed for a record: only the ones whose value is present. */
  function PresentRows(fields: seq<Field>): (rows: seq<Field>)
    ensures |rows| <= |fields|
    ensures forall k :: 0 <= k < |rows| ==> rows[k].value.Some? && rows[k] in fields
    ensures forall k :: 0 <= k < |fields| && fields[k].value.Some? ==> fields[k] in rows
  {
    if |fields| == 0 then []
    else
      var rest := PresentRows(fields[1..]);
      assert forall k :: 1 <= k < |fields| ==> fields[k] == fields[1..][k - 1];
      if fields[0].value.Some? then [fields[0]] + rest else rest
  }

  /** The rows `print_results` prints for one record; throughput and its
      deviation are always among them. */
  function ConsoleRows(stage: Stage, m: Metric): (rows: seq<Field>)
    ensures Field(ThroughputLabel(stage), Some(Real(m.throughput))) in rows
    ensures Field("Throughput MAD (±%)", Some(Real(m.throughputDeviation))) in rows
    ensures forall k :: 0 <= k < |rows| ==> rows[k].value.Some?
  {
    var fs := Fields(stage, m);
    assert fs[1] == Field(ThroughputLabel(stage), Some(Real(m.throughput)));
    assert fs[2] == Field("Throughput MAD (±%)", Some(Real(m.throughputDeviation)));
    PresentRows(fs)
  }

  /** Digits after the point the console prints a double with: `{:.0f}` above
      100, `{:.1f}` above 10, `{:.0f}` for magnitudes below 0.005, else `{:.2f}`. */
  function ConsolePrecision(v: real): (p: nat)
    ensures p <= 2
    ensures p == 1 <==> 10.0 < v <= 100.0
  {
    if v > 100.0 then 0
    else if v > 10.0 then 1
    else if -0.005 < v < 0.005 then 0
    else 2
  }

  /** Which record the comparison is made against, and whether the configured
      baseline name was missing (the "not found, using slowest" warning). */
  datatype BaselineChoice = BaselineChoice(index: nat, notFound: bool)

  /** `std::min_element` by throughput over `ms[i..]`, given the first minimum
      `best` of `ms[..i]`. */
  function MinScan(ms: seq<Metric>, i: nat, best: nat): (k: nat)
    requires best < i <= |ms|
    requires forall j :: 0 <= j < i ==> ms[best].throughput <= ms[j].throughput
    requires forall j :: 0 <= j < best ==> ms[j].throughput > ms[best].throughput
    ensures k < |ms|
    ensures forall j :: 0 <= j < |ms| ==> ms[k].throughput <= ms[j].throughput
    ensures forall j :: 0 <= j < k ==> ms[j].throughput > ms[k].throughput
    decreases |ms| - i
  {
    if i == |ms| then best
    else if ms[i].throughput < ms[best].throughput then MinScan(ms, i + 1, i)
    else MinScan(ms, i + 1, best)
  }

  /** The first record of least throughput: the slowest. */
  function Slowest(ms: seq<Metric>): (k: nat)
    requires |ms| > 0
    ensures k < |ms|
    ensures forall j :: 0 <= j < |ms| ==> ms[k].throughput <= ms[j].throughput
    ensures forall j :: 0 <= j < k ==> ms[j].throughput > ms[k].throughput
  {
    MinScan(ms, 1, 0)
  }

  /** `std::find_if` by name: the first record called `name`, if any. */
  function FindByName(ms: seq<Metric>, name: string): (r: Option<nat>)
    ensures r.None? <==> forall j :: 0 <= j < |ms| ==> ms[j].name != name
    ensures r.Some? ==> r.value < |ms| && ms[r.value].name == name
                        && forall j :: 0 <= j < r.value ==> ms[j].name != name
  {
    if |ms| == 0 then None
    else if ms[0].name == name then Some(0)
    else
      match FindByName(ms[1..], name)
      case None => None
      case Some(k) => Some(k + 1)
  }

  /** The baseline: the named record when the stage names one that exists,
      otherwise the slowest record. */
  function SelectBaseline(ms: seq<Metric>, baseline: string): (c: BaselineChoice)
    requires |ms| > 0
    ensures c.index < |ms|
    ensures c.notFound <==> baseline != "" && forall j :: 0 <= j < |ms| ==> ms[j].name != baseline
    ensures baseline != "" && !c.notFound ==>
              ms[c.index].name == baseline && forall j :: 0 <= j < c.index ==> ms[j].name != baseline
    ensures baseline == "" || c.notFound ==>
              (forall j :: 0 <= j < |ms| ==> ms[c.index].throughput <= ms[j].throughput)
              && forall j :: 0 <= j < c.index ==> ms[j].throughput > ms[c.index].throughput
  {
    if baseline == "" then BaselineChoice(Slowest(ms), false)
    else
      match FindByName(ms, baseline)
      case Some(k) => BaselineChoice(k, false)
      case None => BaselineChoice(Slowest(ms), true)
  }

  /** A "`<name>` is `<percent>`% faster than `<baseline>`" line, by record index. */
  datatype FasterLine = FasterLine(index: nat, percent: real)

  /** The relative difference `print_results` computes, in percent. */
  function DiffPercent(t: real, base: real): (d: real)
    requires base != 0.0
    ensures d * base == (t - base) * 100.0
  {
    var d := (t - base) / base * 100.0;
    assert (t - base) / base * base == t - base;
    d
  }

  /** The record indices a list of comparison lines names. */
  function ListedIndices(lines: seq<FasterLine>): set<nat> {
    set k | 0 <= k < |lines| :: lines[k].index
  }

  /** The comparison lines for records `i..`, in stage order: every record whose
      difference to the baseline is positive. */
  function FasterFrom(ms: seq<Metric>, base: real, i: nat): (lines: seq<FasterLine>)
    requires base != 0.0 && i <= |ms|
    ensures ListedIndices(lines) == set j | i <= j < |ms| && DiffPercent(ms[j].throughput, base) > 0.0
    ensures forall k :: 0 <= k < |lines| ==>
              i <= lines[k].index < |ms|
              && lines[k].percent == DiffPercent(ms[lines[k].index].throughput, base)
    ensures forall k, k' :: 0 <= k < k' < |lines| ==> lines[k].index < lines[k'].index
    decreases |ms| - i
  {
    if i == |ms| then []
    else
      var rest := FasterFrom(ms, base, i + 1);
      var d := DiffPercent(ms[i].throughput, base);
      if d > 0.0 then
        var lines := [FasterLine(i, d)] + rest;
        assert forall k :: 1 <= k < |lines| ==> lines[k] == rest[k - 1];
        assert ListedIndices(lines) == {i} + ListedIndices(rest) by {
          forall x | x in ListedIndices(lines) ensures x in {i} + ListedIndices(rest) {
            var k :| 0 <= k < |lines| && lines[k].index == x;
            if k > 0 { assert rest[k - 1].index == x; }
          }
          forall x | x in ListedIndices(rest) ensures x in ListedIndices(lines) {
            var k :| 0 <= k < |rest| && rest[k].index == x;
            assert lines[k + 1].index == x;
          }
          assert lines[0].index == i;
        }
        lines
      else rest
  }

  /** What the comparison part of `print_results` does. */
  datatype Comparison =
    | Skipped                                   // comparison off, or at most one record
    | ZeroBaseline(choice: BaselineChoice)      // baseline throughput is 0: error, nothing listed
    | Compared(choice: BaselineChoice, faster: seq<FasterLine>)

  /** The comparison `print_results` reports for a stage. */
  function CompareResults(stage: Stage, showComparison: bool): (c: Comparison)
    ensures c.Skipped? <==> !showComparison || |stage.results| <= 1
    ensures !c.Skipped? ==> c.choice == SelectBaseline(stage.results, stage.baseline)
    ensures c.ZeroBaseline? <==> !c.Skipped? && stage.results[c.choice.index].throughput == 0.0
  {
    var ms := stage.results;
    if !showComparison || |ms| <= 1 then Skipped
    else
      var choice := SelectBaseline(ms, stage.baseline);
      var base := ms[choice.index].throughput;
      if base == 0.0 then ZeroBaseline(choice)
      else Compared(choice, FasterFrom(ms, base, 0))
  }

  // ---------------------------------------------------------------------------
  // Lemmas
  // ---------------------------------------------------------------------------

  /** A single row is printed exactly when its value is present. */
  lemma PresentRowsOne(f: Field)
    ensures PresentRows([f]) == if f.value.Some? then [f] else []
  {
    assert [f][1..] == [];
  }

  /** Rows are printed in field order: the present rows of a concatenation are
      the present rows of each part, in turn. With `PresentRowsOne` this fixes
      the output to the present fields, each once, in their original order. */
  lemma {:induction false} PresentRowsAppend(a: seq<Field>, b: seq<Field>)
    ensures PresentRows(a + b) == PresentRows(a) + PresentRows(b)
    decreases |a|
  {
    if |a| == 0 {
      assert a + b == b;
    } else {
      assert (a + b)[0] == a[0];
      assert (a + b)[1..] == a[1..] + b;
      PresentRowsAppend(a[1..], b);
    }
  }

  /** Against a positive baseline the difference is positive exactly when the
      record is strictly faster. */
  lemma PositiveDiffIsFaster(t: real, base: real)
    requires base > 0.0
    ensures DiffPercent(t, base) > 0.0 <==> t > base
  {
    if t > base {
      assert (t - base) / base > 0.0;
    } else {
      assert (t - base) / base <= 0.0;
    }
  }

  /** The faster-than report lists, in stage order, exactly the records whose
      throughput strictly exceeds the baseline's; so the baseline itself, and
      every record as slow as it, is never listed. */
  lemma FasterThanBaseline(stage: Stage, showComparison: bool)
    requires showComparison && |stage.results| > 1
    requires stage.results[SelectBaseline(stage.results, stage.baseline).index].throughput > 0.0
    ensures var c := CompareResults(stage, showComparison);
            var ms := stage.results;
            var base := ms[c.choice.index].throughput;
            c.Compared?
            && ListedIndices(c.faster) == (set j | 0 <= j < |ms| && ms[j].throughput > base)
            && c.choice.index !in ListedIndices(c.faster)
  {
    var ms := stage.results;
    var c := CompareResults(stage, showComparison);
    var base := ms[c.choice.index].throughput;
    forall j | 0 <= j < |ms| {
      PositiveDiffIsFaster(ms[j].throughput, base);
    }
  }

  /** With the default baseline (the slowest record) every record is listed
      except those tied with the slowest. */
  lemma DefaultBaselineListsAllButSlowest(stage: Stage)
    requires |stage.results| > 1 && stage.baseline == ""
    requires stage.results[Slowest(stage.results)].throughput > 0.0
    ensures var c := CompareResults(stage, true);
            var ms := stage.results;
            c.Compared? && c.choice == BaselineChoice(Slowest(ms), false)
            && ListedIndices(c.faster)
               == set j | 0 <= j < |ms| && ms[j].throughput != ms[Slowest(ms)].throughput
  {
    var ms := stage.results;
    var c := CompareResults(stage, true);
    FasterThanBaseline(stage, true);
    var k := Slowest(ms);
    assert (set j | 0 <= j < |ms| && ms[j].throughput > ms[k].throughput)
        == (set j | 0 <= j < |ms| && ms[j].throughput != ms[k].throughput);
  }

  /** As written, a negative baseline throughput flips the test: the records
      listed as faster are the ones with lower throughput. Throughput is a count
      divided by a time, so the engine never produces this. */
  lemma NegativeBaselineFlips(t: real, base: real)
    requires base < 0.0
    ensures DiffPercent(t, base) > 0.0 <==> t < base
  {
    if t < base {
      assert (t - base) / base > 0.0;
    } else {
      assert (t - base) / base <= 0.0;
    }
  }
}
