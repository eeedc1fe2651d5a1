/** `to_markdown`: a `##` header naming the stage, then one `###` section per
    record, fastest first, each listing every row of the record and writing
    `N/A` where an optional value is absent. Number formatting is a supplied
    function: `fixed(x, p)` is `x` printed with `p` decimals and `count(n)` is
    an integer printed with `{}`. */
module Markdown {
  import opened Wrappers
  import opened Metrics
  import opened Ranking
  import ConsoleReport
  import ConsoleChart

  /** Decimals the report prints a double with: none above 100, one above 10,
      else two. */
  function MarkdownPrecision(v: real): (p: nat)
    ensures p <= 2
    ensures p == 0 <==> v > 100.0
    ensures p == 1 <==> 10.0 < v <= 100.0
  {
    if v > 100.0 then 0 else if v > 10.0 then 1 else 2
  }

  const NotAvailable: string := "N/A"

  /** The text after a row's label: `N/A` when absent. With formatters that
      never print `N/A` themselves, `N/A` appears exactly for an absent value. */
  function ValueText(value: Option<Reading>, fixed: (real, nat) -> string, count: nat -> string): (t: string)
    ensures value.None? ==> t == NotAvailable
    ensures NeverNA(fixed, count) ==> (t == NotAvailable <==> value.None?)
  {
    match value
    case None => NotAvailable
    case Some(Real(x)) =>
      assert NeverNA(fixed, count) ==> fixed(x, MarkdownPrecision(x)) != NotAvailable;
      fixed(x, MarkdownPrecision(x))
    case Some(Count(n)) =>
      assert NeverNA(fixed, count) ==> count(n) != NotAvailable;
      count(n)
  }

  /** `**<label>**: <value>` and a newline: the row reads back as the label
      between bold markers, then the value text, then the line end. */
  function RowText(f: Field, fixed: (real, nat) -> string, count: nat -> string): (r: string)
    ensures var n := |f.caption|;
            && |r| == n + |ValueText(f.value, fixed, count)| + 7
            && r[..2] == "**" && r[2..n + 2] == f.caption && r[n + 2..n + 6] == "**: "
            && r[n + 6..|r| - 1] == ValueText(f.value, fixed, count) && r[|r| - 1] == '\n'
  {
    var n := |f.caption|;
    var text := ValueText(f.value, fixed, count);
    var r := "**" + f.caption + "**: " + text + "\n";
    assert r[..2] == "**";
    assert r[2..n + 2] == f.caption;
    assert r[n + 2..n + 6] == "**: ";
    assert r[n + 6..|r| - 1] == text;
    r
  }

  function RowsText(fields: seq<Field>, fixed: (real, nat) -> string, count: nat -> string): string {
    if |fields| == 0 then [] else RowText(fields[0], fixed, count) + RowsText(fields[1..], fixed, count)
  }

  const SectionRule: string := "\n---\n\n"

  function SectionHeading(m: Metric): string {
    "### Metrics for: " + m.name + "\n\n"
  }

  /** One record's section: it opens with the heading naming the record and
      closes with the separator rule. */
  function Section(stage: Stage, m: Metric, fixed: (real, nat) -> string, count: nat -> string): (sec: string)
    ensures |sec| >= |SectionHeading(m)| + |SectionRule|
    ensures sec[..|SectionHeading(m)|] == SectionHeading(m)
    ensures sec[|sec| - |SectionRule|..] == SectionRule
  {
    var rows := RowsText(Fields(stage, m), fixed, count);
    var sec := SectionHeading(m) + rows + SectionRule;
    assert sec[..|SectionHeading(m)|] == SectionHeading(m);
    assert sec[|sec| - |SectionRule|..] == SectionRule;
    sec
  }

  /** The sections of the records in the given order. */
  function Sections(stage: Stage, order: seq<Metric>, fixed: (real, nat) -> string, count: nat -> string): string {
    if |order| == 0 then [] else Section(stage, order[0], fixed, count) + Sections(stage, order[1..], fixed, count)
  }

  const HeaderLead: string := "## Performance Metrics for: "

  /** The report's first line names the stage, followed by a blank line. */
  function Header(stage: Stage): (h: string)
    ensures |h| == |HeaderLead| + |stage.name| + 2
    ensures h[..|HeaderLead|] == HeaderLead
    ensures h[|HeaderLead|..|h| - 2] == stage.name && h[|h| - 2..] == "\n\n"
  {
    var h := HeaderLead + stage.name + "\n\n";
    assert h[..|HeaderLead|] == HeaderLead;
    assert h[|HeaderLead|..|h| - 2] == stage.name;
    assert h[|h| - 2..] == "\n\n";
    h
  }

  /** The report: the header, then the sections of some fastest-first
      rearrangement of the stage's records (which one among equal throughputs
      is left open, as with an unstable sort). */
  function ToMarkdown(stage: Stage, fixed: (real, nat) -> string, count: nat -> string): (md: string)
    ensures exists order :: FastestFirst(order, stage.results)
                            && md == Header(stage) + Sections(stage, order, fixed, count)
    ensures |md| >= |Header(stage)| && md[..|Header(stage)|] == Header(stage)
  {
    var order := SortFastestFirst(stage.results);
    var md := Header(stage) + Sections(stage, order, fixed, count);
    assert md[..|Header(stage)|] == Header(stage);
    md
  }

  // ---------------------------------------------------------------------------
  // Lemmas
  // ---------------------------------------------------------------------------

  /** Formatters that never print the text `N/A` themselves. */
  ghost predicate NeverNA(fixed: (real, nat) -> string, count: nat -> string) {
    (forall x, p :: fixed(x, p) != NotAvailable) && (forall n :: count(n) != NotAvailable)
  }

  /** A row reads `N/A` exactly when its value is absent: absence is never shown
      as a number, and a present value (zero included) never as `N/A`. */
  lemma AbsentIsNA(f: Field, fixed: (real, nat) -> string, count: nat -> string)
    requires NeverNA(fixed, count)
    ensures RowText(f, fixed, count) == "**" + f.caption + "**: N/A\n" <==> f.value.None?
  {
    var prefix := "**" + f.caption + "**: ";
    var text := ValueText(f.value, fixed, count);
    if RowText(f, fixed, count) == prefix + NotAvailable + "\n" {
      assert prefix + text + "\n" == prefix + NotAvailable + "\n";
      assert |text| == |NotAvailable|;
      assert text == (prefix + text + "\n")[|prefix|..|prefix| + 3];
      assert NotAvailable == (prefix + NotAvailable + "\n")[|prefix|..|prefix| + 3];
    }
  }

  /** The two reports agree on absence: the console prints a row of a record
      exactly when the Markdown report shows a value for it rather than `N/A`. */
  lemma ReportsAgreeOnAbsence(stage: Stage, m: Metric, k: nat,
                              fixed: (real, nat) -> string, count: nat -> string)
    requires k < FieldCount
    requires NeverNA(fixed, count)
    ensures var f := Fields(stage, m)[k];
            f in ConsoleReport.ConsoleRows(stage, m) <==> ValueText(f.value, fixed, count) != NotAvailable
  {
    PresentIffShown(Fields(stage, m), k, fixed, count);
  }

  lemma PresentIffShown(fs: seq<Field>, k: nat, fixed: (real, nat) -> string, count: nat -> string)
    requires k < |fs|
    requires NeverNA(fixed, count)
    ensures fs[k] in ConsoleReport.PresentRows(fs) <==> ValueText(fs[k].value, fixed, count) != NotAvailable
  {
    PresentIffSome(fs, k);
  }

  lemma PresentIffSome(fs: seq<Field>, k: nat)
    requires k < |fs|
    ensures fs[k] in ConsoleReport.PresentRows(fs) <==> fs[k].value.Some?
  {
    var rows := ConsoleReport.PresentRows(fs);
    if fs[k] in rows {
      var j :| 0 <= j < |rows| && rows[j] == fs[k];
    }
  }

  /** The console and the report choose the same number of decimals, except that
      the console prints magnitudes below 0.005 with none. */
  lemma PrecisionAgreement(v: real)
    ensures ConsoleReport.ConsolePrecision(v)
            == if -0.005 < v < 0.005 then 0 else MarkdownPrecision(v)
  {
  }

  /** In a fastest-first order, the order whose sections the report lists, a
      strictly faster record sits at an earlier position than a slower one. */
  lemma FasterSectionFirst(stage: Stage, order: seq<Metric>, i: nat, j: nat)
    requires FastestFirst(order, stage.results)
    requires i < |order| && j < |order| && order[i].throughput > order[j].throughput
    ensures i < j
  {
  }

  /** A one-record stage reports the header and that record's section. */
  lemma SingleRecord(stage: Stage, fixed: (real, nat) -> string, count: nat -> string)
    requires |stage.results| == 1
    ensures ToMarkdown(stage, fixed, count)
            == Header(stage) + Section(stage, stage.results[0], fixed, count)
  {
    var order := SortFastestFirst(stage.results);
    var m := stage.results[0];
    assert multiset(order) == multiset{m};
    FastestFirstLength(order, stage.results);
    assert order[0] in multiset(order);
    assert order == [m];
    assert Sections(stage, order, fixed, count) == Section(stage, m, fixed, count) + Sections(stage, [], fixed, count);
  }

  /** Formatters whose output is always a single line. */
  ghost predicate SingleLine(fixed: (real, nat) -> string, count: nat -> string) {
    (forall x, p :: ConsoleChart.NoNewline(fixed(x, p))) && (forall n :: ConsoleChart.NoNewline(count(n)))
  }

  /** A row's text without its line end. */
  function RowLine(f: Field, fixed: (real, nat) -> string, count: nat -> string): string {
    "**" + f.caption + "**: " + ValueText(f.value, fixed, count)
  }

  function RowLines(fs: seq<Field>, fixed: (real, nat) -> string, count: nat -> string): (lines: seq<string>)
    ensures |lines| == |fs|
    ensures forall k :: 0 <= k < |fs| ==> lines[k] == RowLine(fs[k], fixed, count)
  {
    seq(|fs|, k requires 0 <= k < |fs| => RowLine(fs[k], fixed, count))
  }

  /** The rows of a section are the row lines, each terminated by a newline. */
  lemma {:induction false} RowsAsLines(fs: seq<Field>, fixed: (real, nat) -> string, count: nat -> string)
    ensures RowsText(fs, fixed, count) == ConsoleChart.JoinLines(RowLines(fs, fixed, count))
    decreases |fs|
  {
    if |fs| > 0 {
      var lines := RowLines(fs, fixed, count);
      var rest := RowsText(fs[1..], fixed, count);
      assert lines[1..] == RowLines(fs[1..], fixed, count);
      RowsAsLines(fs[1..], fixed, count);
      ConsoleChart.JoinLinesCons(lines);
      assert RowsText(fs, fixed, count) == RowLine(fs[0], fixed, count) + ("\n" + rest);
    }
  }

  lemma NoNewlineConcat(a: string, b: string)
    requires ConsoleChart.NoNewline(a) && ConsoleChart.NoNewline(b)
    ensures ConsoleChart.NoNewline(a + b)
  {
    forall i | 0 <= i < |a + b| ensures (a + b)[i] != '\n' {
      if i >= |a| {
        assert (a + b)[i] == b[i - |a|];
      }
    }
  }

  /** With a single-line caption and single-line formatters a row is one line. */
  lemma RowLineSingle(f: Field, fixed: (real, nat) -> string, count: nat -> string)
    requires ConsoleChart.NoNewline(f.caption) && SingleLine(fixed, count)
    ensures ConsoleChart.NoNewline(RowLine(f, fixed, count))
  {
    var text := ValueText(f.value, fixed, count);
    assert ConsoleChart.NoNewline(text) by {
      match f.value
      case None => assert ConsoleChart.NoNewline(NotAvailable);
      case Some(Real(x)) =>
      case Some(Count(n)) =>
    }
    assert ConsoleChart.NoNewline("**");
    assert ConsoleChart.NoNewline("**: ");
    NoNewlineConcat("**", f.caption);
    NoNewlineConcat("**" + f.caption, "**: ");
    NoNewlineConcat("**" + f.caption + "**: ", text);
  }

  /** Splitting a run of rows at its newlines gives back each row's label and
      value text, one line per row, in order. */
  lemma RowsReadBack(fs: seq<Field>, fixed: (real, nat) -> string, count: nat -> string)
    requires forall k :: 0 <= k < |fs| ==> ConsoleChart.NoNewline(fs[k].caption)
    requires SingleLine(fixed, count)
    ensures var lines := ConsoleChart.SplitLines(RowsText(fs, fixed, count));
            |lines| == |fs|
            && forall k :: 0 <= k < |fs| ==> lines[k] == "**" + fs[k].caption + "**: " + ValueText(fs[k].value, fixed, count)
  {
    var lines := RowLines(fs, fixed, count);
    forall k | 0 <= k < |lines| ensures ConsoleChart.NoNewline(lines[k]) {
      RowLineSingle(fs[k], fixed, count);
    }
    RowsAsLines(fs, fixed, count);
    ConsoleChart.JoinThenSplit(lines);
  }

  /** Between its heading and its closing rule, a record's section holds the
      record's 14 rows, one line each, in the fixed order: each line is the
      row's label in bold and its value text, `N/A` when absent. Captions and
      printed numbers are taken to be single lines. */
  lemma SectionReadBack(stage: Stage, m: Metric, fixed: (real, nat) -> string, count: nat -> string)
    requires forall k :: 0 <= k < FieldCount ==> ConsoleChart.NoNewline(Fields(stage, m)[k].caption)
    requires SingleLine(fixed, count)
    ensures var sec := Section(stage, m, fixed, count);
            var lines := ConsoleChart.SplitLines(sec[|SectionHeading(m)|..|sec| - |SectionRule|]);
            |lines| == FieldCount
            && forall k :: 0 <= k < FieldCount ==>
                 lines[k] == "**" + Fields(stage, m)[k].caption + "**: " + ValueText(Fields(stage, m)[k].value, fixed, count)
  {
    var fs := Fields(stage, m);
    RowsReadBack(fs, fixed, count);
    var rows := RowsText(fs, fixed, count);
    var sec := Section(stage, m, fixed, count);
    assert sec == SectionHeading(m) + rows + SectionRule;
    assert sec[|SectionHeading(m)|..|sec| - |SectionRule|] == rows;
  }
}
