# Bencher reporting layer, modelled in Dafny

Bencher is a C++ micro-benchmarking library. A benchmark run fills a *stage* with one finished `performance_metrics` record per benchmark. This project models what the library does with such a stage once the numbers are in. That covers five pieces:

- The `#RRGGBB` hex colour codec that the SVG chart uses: `hex_to_rgb`, `rgb_to_hex` and `darken_color`.
- The decisions inside `generate_bar_chart_svg` and `bar_chart(stage)`:
  - the length check;
  - the gradient definitions, one per palette colour with a 30%-darkened shade;
  - the scale maximum;
  - which gradient fills which bar.
- The console bar chart `format_bar_chart`: 40 cells per bar, 1/8-cell resolution, a `│` separator and a label, plus the guards in `print_bar_chart`.
- The decisions `print_results` makes:
  - which rows of a record it prints, and with how many decimals;
  - which record is the baseline (the one named by the stage, else the slowest);
  - which records are reported as faster than the baseline.
- `to_markdown`: a header, then one section per record, fastest first, with `N/A` for absent optional values.

Modules:

| module | file | models |
|---|---|---|
| `Wrappers` | `wrappers.dfy` | `Option` and `Result` |
| `Numeric` | `numeric.dfy` | `static_cast<int>` of a double (truncation toward zero) and `std::clamp` |
| `HexColor` | `hex_color.dfy` | the colour codec |
| `SvgChart` | `svg_chart.dfy` | `generate_bar_chart_svg`, reduced to its decisions |
| `ConsoleChart` | `console_chart.dfy` | `format_bar_chart` |
| `Metrics` | `metrics.dfy` | the record, the stage, and the fixed list of 14 labelled rows |
| `Ranking` | `ranking.dfy` | the fastest-first order of `to_markdown` |
| `ConsoleReport` | `console_report.dfy` | `print_results` |
| `Markdown` | `markdown.dfy` | `to_markdown` |
| `StageCharts` | `stage_charts.dfy` | `bar_chart(stage)`, `print_bar_chart`, and the chart at the end of `print_results` |

How the C++ is represented:

- Doubles are modelled as reals.
- The casts are written out:
  - `static_cast<int>` truncates toward zero;
  - `static_cast<size_t>` is only applied where the C++ cast is defined;
  - `x & 0xFF` takes the low byte.
- Number formatting (`std::format` with `{:.Nf}` or `{}`) is a function passed in by the caller.
- Console and SVG text are sequences of Unicode characters, not UTF-8 bytes.

## Model

| member | source | states |
|---|---|---|
| Numeric.Trunc | include/bencher/bar_chart.hpp:55-57 | `static_cast<int>` rounds toward zero: the result has the sign of the input and lies within one of it, never past it |
| Numeric.Clamp | include/bencher/bar_chart.hpp:60-62 | the result lies in `[lo, hi]` and equals the input whenever the input already does |
| HexColor.HexToRgb | include/bencher/bar_chart.hpp:18-42 | fails with the missing-`#` error exactly when the string is empty or does not start with `#`; a successful parse always yields three byte channels |
| HexColor.DigitRunCases | include/bencher/bar_chart.hpp:23-38 | for `#`, a run of hex digits, then a non-digit or the end: no digit is the format error; one to eight digits parse to the channels of the run's value; more than eight digits with a nonzero leading digit overflow 32 bits and are the format error (a leading zero is covered by `LeadingZeroIgnored`) |
| HexColor.LeadingZeroIgnored | include/bencher/bar_chart.hpp:25-37 | a leading `0` never changes the parse, however long the run; stripping leading zeros reduces every run to a case of `DigitRunCases` |
| HexColor.WholeRun | include/bencher/bar_chart.hpp:25-37 | `#` then only hex digits: no digit or a value of 2^32 or more is the format error, otherwise the channels of the value |
| HexColor.PaddedOverflow | include/bencher/bar_chart.hpp:25-37 | a `0` in front of more than eight digits led by a nonzero digit is still the format error, as `#0100000000` is |
| HexColor.PaddedShortForm | include/bencher/bar_chart.hpp:25-31 | `#0FFF` parses as `#FFF`, giving 0, 15, 255 |
| HexColor.HexValueBelow | include/bencher/bar_chart.hpp:25 | a run of `n` hex digits denotes a value below `16^n`, so eight digits always fit an `unsigned int` |
| HexColor.LeadingDigitBound | include/bencher/bar_chart.hpp:25 | a run with a nonzero leading digit is worth at least that digit in its place value |
| HexColor.EmptyRun | include/bencher/bar_chart.hpp:25-37 | `#` alone is the format error |
| HexColor.Overflow | include/bencher/bar_chart.hpp:25-37 | `#100000000` (2^32) does not fit and is the format error |
| HexColor.ShortForm | include/bencher/bar_chart.hpp:25-31 | `#FFF` is not a shorthand: it parses as the number 0xFFF, giving 0, 15, 255 |
| HexColor.LeadingByteDropped | include/bencher/bar_chart.hpp:25-31 | an eight-digit `#AARRGGBB` parses exactly like `#RRGGBB`: the top byte is dropped |
| HexColor.HexRunLength | include/bencher/bar_chart.hpp:25 | `from_chars` consumes the longest prefix of hex digits and stops at the first non-digit |
| HexColor.Channels | include/bencher/bar_chart.hpp:29-31 | the three channels are bytes and, read as `r*65536 + g*256 + b`, equal the value's low 24 bits |
| HexColor.LowBytes | include/bencher/bar_chart.hpp:29-31 | the three bytes taken by shifting and masking recompose the value modulo 2^24 |
| HexColor.ChannelsLow24 | include/bencher/bar_chart.hpp:29-31 | two values with the same low 24 bits give the same colour |
| HexColor.RgbToHex | include/bencher/bar_chart.hpp:45-48 | the output is always `#` followed by six upper-case hex digits, whatever the channel values |
| HexColor.Mask | include/bencher/bar_chart.hpp:47 | `x & 0xFF` is a byte that differs from `x` by a multiple of 256 |
| HexColor.ByteHex | include/bencher/bar_chart.hpp:47 | `{:02X}` of a byte is exactly two upper-case hex digits |
| HexColor.DarkenColor | include/bencher/bar_chart.hpp:51-66 | fails exactly when `hex_to_rgb` fails on the input, with the same error; otherwise returns a seven-character `#` colour |
| HexColor.DarkenChannel | include/bencher/bar_chart.hpp:55-62 | a darkened channel is always a byte, whatever the fraction; for a non-negative channel and a fraction in [0, 1] it never exceeds the original |
| HexColor.DarkenRgb | include/bencher/bar_chart.hpp:56-63 | the darkened colour has byte channels; for a byte colour and a fraction in [0, 1] no channel grows |
| HexColor.RoundTrip | include/bencher/bar_chart.hpp:18-48 | parsing what `rgb_to_hex` prints gives back the colour with each channel reduced to its low byte |
| HexColor.MaskByteColor | include/bencher/bar_chart.hpp:47 | masking leaves a parsed colour unchanged, so parsed colours round-trip exactly |
| HexColor.CanonicalForm | include/bencher/bar_chart.hpp:18-48 | a `#` with six hex digits in either case parses, and prints back as the same digits upper-cased |
| HexColor.SixDigitParse | include/bencher/bar_chart.hpp:25-31 | the channels of a `#RRGGBB` string are the values of its three digit pairs |
| HexColor.TrailingIgnored | include/bencher/bar_chart.hpp:25-32 | characters after the leading digit run do not change the parse |
| HexColor.ByteHexValue | include/bencher/bar_chart.hpp:47 | a byte printed with `{:02X}` reads back as the same byte |
| HexColor.PrimaryColours | tests/unit_test/unit_test.cpp:325-345 | `#FF0000`, `#00FF00` and `#0000FF` parse to pure red, green and blue |
| HexColor.PrintSample | tests/unit_test/unit_test.cpp:347-351 | the colour 255, 128, 64 prints as `#FF8040` |
| HexColor.DarkenParsesBack | include/bencher/bar_chart.hpp:51-66 | a darkened colour parses back to the truncated, clamped channels of the original |
| HexColor.DarkenWhiteByHalf | tests/unit_test/unit_test.cpp:353-359 | darkening `#FFFFFF` by 0.5 gives `#7F7F7F`, which parses to 127, 127, 127 |
| SvgChart.BarFill | include/bencher/bar_chart.hpp:250-254 | a bar is black exactly when the palette is empty; otherwise it gets the gradient of index `i mod n` |
| SvgChart.FillCycles | include/bencher/bar_chart.hpp:250-254 | the bar colours repeat with a period equal to the palette size |
| SvgChart.FillsDistinctWithinPalette | include/bencher/bar_chart.hpp:250-254 | within one pass over the palette, no two bars share a gradient |
| SvgChart.FirstBadFrom | include/bencher/bar_chart.hpp:175-185 | finds nothing exactly when every colour from the start index on parses; otherwise finds the first colour that fails, all before it parsing |
| SvgChart.Shades | include/bencher/bar_chart.hpp:175-185 | for parsing colours, gradient `i` carries index `i`, colour `i`, and a dark stop that parses to colour `i` darkened by 0.3 |
| SvgChart.GradientDefs | include/bencher/bar_chart.hpp:175-185 | succeeds exactly when every palette colour parses, giving one gradient per colour with its 30% shade; otherwise fails at the first bad colour with that colour's error |
| SvgChart.ScaleMax | include/bencher/bar_chart.hpp:128-136 | the scale is positive and at least every value; when some value is positive it is one of the values (hence the largest), and when none is it is 1 |
| SvgChart.GenerateBarChart | include/bencher/bar_chart.hpp:119-136 | throws the length error exactly when names and data differ in length; succeeds exactly when the lengths agree and every colour parses; bar `i` carries name `i`, value `i` and its cyclic fill; the scale is `ScaleMax` of the data and the gradients are those of `GradientDefs`, whose error is the chart's error once the lengths agree |
| ConsoleChart.BlockChar | include/bencher/diagnostics.hpp:25-35 | the glyph for `k` eighths is a space exactly for 0, and otherwise the block character U+2590 - k |
| ConsoleChart.Scaled | include/bencher/diagnostics.hpp:45 | with a zero maximum the scaled length is 0; otherwise it is the value's share of 40 cells, `scaled * max == value * 40` |
| ConsoleChart.GlyphChar | include/bencher/diagnostics.hpp:25-36 | the printed character of a cell reads back as that cell, so no two cell kinds print alike; exactly an empty cell prints as a space |
| ConsoleChart.RenderBar | include/bencher/diagnostics.hpp:52-65 | the printed bar has one character per cell, reading it back gives the cells in order, and exactly the empty cells are spaces |
| ConsoleChart.Label | include/bencher/diagnostics.hpp:68 | the label is a space, the name, ` (`, the printed value and `)`, at those positions |
| ConsoleChart.SizeCast | include/bencher/diagnostics.hpp:46-47 | `static_cast<size_t>` is the floor of a non-negative value, and 0 for a value in (-1, 0) |
| ConsoleChart.MaxOf | include/bencher/diagnostics.hpp:18 | the maximum is at least every value and is one of the values |
| ConsoleChart.BarLayout | include/bencher/diagnostics.hpp:45-50 | the full-block count never exceeds 40 and the partial index never exceeds 7 |
| ConsoleChart.BarGlyphs | include/bencher/diagnostics.hpp:52-62 | every bar is 40 cells: full blocks first, then the partial block or a space, then spaces |
| ConsoleChart.BarGlyphsEighths | include/bencher/diagnostics.hpp:52-62 | a bar covers 8 eighths per full block plus the partial block, which is dropped when the bar is already full |
| ConsoleChart.LayoutEighths | include/bencher/diagnostics.hpp:45-62 | a bar shows `floor(8 * scaled)` eighths of a cell, clamped to [0, 320] |
| ConsoleChart.BarsMonotone | include/bencher/diagnostics.hpp:45-62 | against the same positive maximum, a larger value never gets a shorter bar |
| ConsoleChart.MaxEntryFullBar | tests/unit_test/unit_test.cpp:455-473 | the entry equal to the maximum is drawn as 40 full blocks |
| ConsoleChart.HalfEntryHalfBar | tests/unit_test/unit_test.cpp:486-515 | an entry at half the maximum is drawn as 20 full blocks and 20 spaces |
| ConsoleChart.ZeroMaxBlank | include/bencher/diagnostics.hpp:45 | with a zero maximum there is no division and every bar is blank |
| ConsoleChart.PartialPlacement | include/bencher/diagnostics.hpp:56-58 | a partial block appears exactly when the bar is not full and the partial index is nonzero, and then right after the full blocks |
| ConsoleChart.EntryText | include/bencher/diagnostics.hpp:64-71 | a line is the 40-cell bar, then the `│` separator, then the label |
| ConsoleChart.FormatBarChart | include/bencher/diagnostics.hpp:10-15 | the output is empty exactly when the sizes differ or there are no entries; otherwise it ends with a newline |
| ConsoleChart.InRangeLayoutDefined | include/bencher/diagnostics.hpp:45-47 | for a value between 0 and the maximum both `size_t` casts are defined |
| ConsoleChart.NonNegativeChartDefined | include/bencher/diagnostics.hpp:18-47 | non-negative values always meet the chart's cast precondition |
| ConsoleChart.JoinLines | include/bencher/diagnostics.hpp:71 | newline-terminating lines gives at least one character per line and ends in a newline when there is a line |
| ConsoleChart.JoinThenSplit | include/bencher/diagnostics.hpp:71 | splitting newline-terminated lines at their newlines gives the lines back |
| ConsoleChart.OneLinePerEntry | include/bencher/diagnostics.hpp:41-74 | the chart has exactly one line per entry, in input order, each that entry's bar, separator and label, and is exactly those lines each followed by a newline, the last one included |
| Metrics.Fields | include/bencher/diagnostics.hpp:150-163 | each record has 14 rows, in a fixed order; throughput and its deviation are always present |
| Metrics.Names | include/bencher/diagnostics.hpp:93-97 | one name per record, in stage order |
| Metrics.Throughputs | include/bencher/diagnostics.hpp:93-97 | one throughput per record, in stage order |
| Ranking.Insert | include/bencher/diagnostics.hpp:232 | inserting adds exactly the one record |
| Ranking.InsertKeepsOrder | include/bencher/diagnostics.hpp:232 | inserting into a fastest-first sequence keeps it fastest first |
| Ranking.SortFastestFirst | include/bencher/diagnostics.hpp:232 | the result is a permutation of the records with throughput non-increasing |
| Ranking.FastestFirstLength | include/bencher/diagnostics.hpp:232 | the fastest-first order has as many records as the stage |
| Ranking.FirstIsFastest | include/bencher/diagnostics.hpp:232 | the first record of the order is at least as fast as every record |
| ConsoleReport.PresentRows | include/bencher/diagnostics.hpp:138-147 | a row is printed exactly when its value is present |
| ConsoleReport.PresentRowsOne | include/bencher/diagnostics.hpp:138-147 | a single row is printed when present and dropped when absent |
| ConsoleReport.PresentRowsAppend | include/bencher/diagnostics.hpp:150-163 | rows are printed in their listed order, each at most once: the printed rows of a concatenation are those of the first part followed by those of the second |
| ConsoleReport.ConsoleRows | include/bencher/diagnostics.hpp:150-152 | the throughput row and the throughput-deviation row are always printed |
| ConsoleReport.ConsolePrecision | include/bencher/diagnostics.hpp:120-131 | one decimal exactly for values in (10, 100]; never more than two |
| ConsoleReport.Slowest | include/bencher/diagnostics.hpp:177-179 | `min_element` picks a record of least throughput, and the first one among ties |
| ConsoleReport.FindByName | include/bencher/diagnostics.hpp:182-183 | `find_if` finds the first record with the name, and finds nothing exactly when no record has it |
| ConsoleReport.SelectBaseline | include/bencher/diagnostics.hpp:172-191 | the baseline is the first record with the stage's baseline name; with no name, or a missing name (flagged as not found), it is the first slowest record |
| ConsoleReport.FasterFrom | include/bencher/diagnostics.hpp:199-212 | the listed records are exactly those whose difference to the baseline is positive; each is listed once with its percentage, in stage order |
| ConsoleReport.CompareResults | include/bencher/diagnostics.hpp:168-213 | the comparison runs exactly when enabled with more than one record; a baseline of throughput 0 lists nothing |
| ConsoleReport.DiffPercent | include/bencher/diagnostics.hpp:205-207 | the percentage difference times the baseline is 100 times the throughput difference |
| ConsoleReport.PositiveDiffIsFaster | include/bencher/diagnostics.hpp:205-209 | against a positive baseline, the difference is positive exactly when the record is strictly faster |
| ConsoleReport.FasterThanBaseline | include/bencher/diagnostics.hpp:168-213 | with a positive baseline, the listed records are exactly those strictly faster than it; the baseline itself is never listed |
| ConsoleReport.DefaultBaselineListsAllButSlowest | include/bencher/diagnostics.hpp:174-213 | with the default baseline, every record is listed except those tied with the slowest |
| ConsoleReport.NegativeBaselineFlips | include/bencher/diagnostics.hpp:205-209 | with a negative baseline, the test as written lists the slower records instead |
| Markdown.MarkdownPrecision | include/bencher/diagnostics.hpp:248-261 | no decimals exactly above 100 and one decimal exactly in (10, 100] |
| Markdown.ToMarkdown | include/bencher/diagnostics.hpp:229-309 | the report is the header followed by one section per record, in some fastest-first permutation of the records |
| Markdown.AbsentIsNA | include/bencher/diagnostics.hpp:268-275 | a row reads `N/A` exactly when its value is absent; a present value, including 0, is never shown as `N/A` |
| Markdown.ValueText | include/bencher/diagnostics.hpp:246-275 | an absent value is shown as `N/A`; with formatters that never print `N/A`, the text is `N/A` exactly when the value is absent |
| Markdown.RowText | include/bencher/diagnostics.hpp:246-275 | a row reads back as `**`, the label, `**: `, the value's text, then a newline |
| Markdown.Section | include/bencher/diagnostics.hpp:283-305 | a record's section opens with `### Metrics for: ` and the record's name and closes with the `---` rule |
| Markdown.SectionReadBack | include/bencher/diagnostics.hpp:283-305 | between its heading and its closing rule, a record's section is its 14 rows in the fixed order, one line each, the bold label then the value text (`N/A` when absent), given single-line captions and number formatting |
| Markdown.RowsReadBack | include/bencher/diagnostics.hpp:287-302 | splitting a run of rows at its newlines gives one line per row, in order, each the bold label then the value text |
| Markdown.RowsAsLines | include/bencher/diagnostics.hpp:287-302 | a run of rows is the row lines, each followed by a newline |
| Markdown.Header | include/bencher/diagnostics.hpp:240-244 | the report's first line is `## Performance Metrics for: ` and the stage name, followed by a blank line |
| Markdown.PresentIffShown | include/bencher/diagnostics.hpp:138-147 | a row is printed on the console exactly when its Markdown text is not `N/A` |
| Markdown.ReportsAgreeOnAbsence | include/bencher/diagnostics.hpp:150-163 | for each of a record's 14 rows, the console prints it exactly when the Markdown report shows a value for it |
| Markdown.PrecisionAgreement | include/bencher/diagnostics.hpp:120-131 | the console and the report pick the same number of decimals, except that the console prints magnitudes below 0.005 with none |
| Markdown.FasterSectionFirst | include/bencher/diagnostics.hpp:232 | in a fastest-first order, the one whose sections the report lists, a strictly faster record sits earlier than a slower one |
| Markdown.SingleRecord | tests/unit_test/unit_test.cpp:390-403 | a one-record stage reports the header and that record's section |
| StageCharts.StageBarChart | include/bencher/diagnostics.hpp:90-103 | a stage's chart never has the length error; it has one bar per record in stage order; the axis label falls back to the stage's throughput unit when the configuration has none |
| StageCharts.PrintBarChart | include/bencher/diagnostics.hpp:77-88 | the size error fires exactly when the sizes differ, the empty error exactly when there are no entries, and the chart prints exactly when `format_bar_chart` has output |
| StageCharts.ComparisonChart | include/bencher/diagnostics.hpp:215-226 | the chart follows the comparison exactly when the comparison runs, and is then always printed, even after a zero-baseline error |
| StageCharts.ThemesParse | include/bencher/bar_chart.hpp:68-96 | every colour of the bright and dark palettes parses |
| StageCharts.WellFormedParses | include/bencher/bar_chart.hpp:18-42 | `#` followed by six hex digits always parses |
| StageCharts.DefaultConfigCharts | include/bencher/bar_chart.hpp:97-107 | with the default configuration every stage charts, under axis label `MB/s`, with bars cycling through the ten bright colours |
| StageCharts.ComparisonChartLines | include/bencher/diagnostics.hpp:215-226 | when the comparison runs, the chart has one line per record, each holding that record's bar and label, in stage order, and is exactly those lines each followed by a newline |
| StageCharts.StageChartDefined | include/bencher/diagnostics.hpp:218-225 | a stage with non-negative throughputs meets the cast precondition of its comparison chart |

## Left out

- `bencher.hpp` is not part of this model. That covers the measurement engine (timing, hardware counters, statistics) and the types of the record's fields. The ordering `operator>` of records also lives there; the model takes it to compare throughput only, which is how the comparison tests in `tests/unit_test/unit_test.cpp:302-322` exercise it, and `Ranking.SortFastestFirst` and `Markdown.ToMarkdown` rest on that. The types are taken from how the reporting code uses them:
  - `bytes_processed` and the counter-derived fields are optional doubles;
  - `total_iteration_count` is an optional count;
  - throughput and its deviation are plain doubles.
- Console and SVG text are not modelled: the `std::cout` and `std::cerr` messages, the column padding `{:<40}` and `{:>10}`, and the SVG markup and geometry (positions, ticks, fonts, the title). The model keeps what decides the output: the rows chosen and their precision, the baseline, the listed records, the fills, and the gradients.
- Number formatting is passed in as a function, not modelled: `{:.0f}`, `{:.1f}`, `{:.2f}` and `{}`. The Markdown lemmas only assume that it never prints the text `N/A`.
- Floating-point rounding is not modelled; doubles are reals, so `c * (1.0 - 0.3)` is computed exactly. In IEEE double arithmetic `1.0 - 0.3` lies just below 0.7. For the channels 0x5A, 0xAA and 0xB4 (90, 170, 180) the product then falls just below 63, 119 and 126. The C++ truncates these to 62, 118 and 125, so its dark stop is one lower than what `SvgChart.Shades` and `SvgChart.GradientDefs` state for that channel. No colour in the built-in bright and dark palettes has such a channel.
- `ConsoleChart.FormatBarChart` requires that each entry's two `size_t` casts are defined. A double outside (-1, 2^64) makes that cast undefined behaviour in C++, so such input is excluded rather than given a meaning.
- `std::sort` is not stable, so the order of records with equal throughput is unspecified. `Markdown.ToMarkdown` therefore states only that the order is some fastest-first permutation; the insertion sort that realises it is one admissible outcome.
- Two checks in `print_results` can never fire once more than one record exists, so their branches are not modelled: the `metrics.empty()` throw and the "Unable to determine the baseline" message.
- HexColor.DarkenChannel: gives a byte for every channel and fraction, even where `c * (1 - p)` lies outside the range of `int` and the C++ `static_cast<int>` is undefined behaviour. The chart only darkens parsed byte channels by 0.3, where the product lies in [0, 178.5].
- Markdown.SectionReadBack: states the row-by-row reading of a section only when every caption and every printed number is a single line. A stage unit label containing a newline still gets its section, as `Markdown.Section` and `Markdown.RowText` state, but that section no longer splits into one line per row.
- The clamp `partial_index > 7` cannot fire in exact arithmetic, because the fractional part times 8 is below 8. The model still clamps, as the code does.
- `ConsoleReport.FasterThanBaseline` assumes a positive baseline throughput. Throughput is a count divided by a time, so it is never negative. `ConsoleReport.NegativeBaselineFlips` states what the code would do with a negative one.
- `json.hpp` and the glaze and simple test drivers are not part of this model.
