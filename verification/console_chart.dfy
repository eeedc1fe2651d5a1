/** `format_bar_chart`: one text line per (name, value) pair, each a 40-cell bar
    drawn with full blocks, at most one partial block at 1/8 resolution and
    space padding, then a `│` separator and a label. Text is modelled as a
    sequence of Unicode characters (not UTF-8 bytes), and a bar as a sequence
    of glyphs. */
module ConsoleChart {
  import opened Numeric

  /** Number of glyph cells in every bar. */
  const BarWidth: nat := 40

  /** Sub-cell resolution of the partial block. */
  const Resolution: nat := 8

  /** One past the largest 64-bit `size_t`. */
  const SizeLimit: nat := 0x1_0000_0000_0000_0000

  /** The separator between bar and label. */
  const Separator: char := '\U{2502}'

  /** A bar cell: a full block, a block `eighths`/8 wide (1..7), or a space. */
  datatype Glyph = Full | Partial(eighths: nat) | Space

  predicate ValidGlyph(g: Glyph) {
    g.Partial? ==> 1 <= g.eighths < Resolution
  }

  predicate ValidBar(bar: seq<Glyph>) {
    forall i :: 0 <= i < |bar| ==> ValidGlyph(bar[i])
  }

  /** How many characters of the bar are filled (full blocks, then any partial). */
  datatype Layout = Layout(full: nat, partial: nat)

  predicate ValidLayout(l: Layout) {
    l.full <= BarWidth && l.partial < Resolution
  }

  /** The block-character table, indexed by eighths; index 0 is a plain space. */
  function BlockChar(k: nat): (c: char)
    requires k < Resolution
    ensures c == ' ' <==> k == 0
    ensures k > 0 ==> c as int == 0x2590 - k
  {
    if k == 0 then ' '
    else if k == 1 then '\U{258F}'
    else if k == 2 then '\U{258E}'
    else if k == 3 then '\U{258D}'
    else if k == 4 then '\U{258C}'
    else if k == 5 then '\U{258B}'
    else if k == 6 then '\U{258A}'
    else '\U{2589}'
  }

  /** The character printed for a glyph; distinct glyphs print differently,
      as reading the character back with `GlyphOf` shows, and only an empty
      cell prints as a space. */
  function GlyphChar(g: Glyph): (c: char)
    requires ValidGlyph(g)
    ensures GlyphOf(c) == g
    ensures c == ' ' <==> g == Space
  {
    match g
    case Full => '\U{2588}'
    case Partial(k) => BlockChar(k)
    case Space => ' '
  }

  /** Reads a printed character back as a glyph: the full block, one of the
      seven partial blocks (U+2589 is 7/8 down to U+258F at 1/8), else a space. */
  function GlyphOf(c: char): Glyph {
    if c == '\U{2588}' then Full
    else if 0x2589 <= c as int <= 0x258F then Partial(0x2590 - c as int)
    else Space
  }

  /** The characters a bar is printed as: as many as there are cells, they
      read back as the bar's glyphs, and exactly the empty cells are spaces. */
  function RenderBar(bar: seq<Glyph>): (s: string)
    requires ValidBar(bar)
    ensures |s| == |bar|
    ensures forall i :: 0 <= i < |bar| ==> GlyphOf(s[i]) == bar[i]
    ensures forall i :: 0 <= i < |bar| ==> (s[i] == ' ' <==> bar[i] == Space)
  {
    seq(|bar|, i requires 0 <= i < |bar| => GlyphChar(bar[i]))
  }

  /** A `static_cast<size_t>` of a double is defined when the truncated value fits. */
  predicate CastDefined(x: real) {
    -1.0 < x < SizeLimit as real
  }

  /** `static_cast<size_t>`: truncation toward zero. */
  function SizeCast(x: real): (n: nat)
    requires CastDefined(x)
    ensures x >= 0.0 ==> n == x.Floor
    ensures x < 0.0 ==> n == 0
  {
    Trunc(x)
  }

  /** The bar length in cells, before clamping; no division when the maximum is 0. */
  function Scaled(value: real, maxValue: real): (s: real)
    ensures maxValue == 0.0 ==> s == 0.0
    ensures maxValue != 0.0 ==> s * maxValue == value * BarWidth as real
  {
    if maxValue == 0.0 then 0.0
    else
      var s := value / maxValue * BarWidth as real;
      assert s * maxValue == value * BarWidth as real by {
        assert value / maxValue * maxValue == value;
      }
      s
  }

  /** Both size casts of one entry are defined. */
  predicate LayoutDefined(value: real, maxValue: real) {
    var s := Scaled(value, maxValue);
    CastDefined(s) && CastDefined((s - Trunc(s) as real) * Resolution as real)
  }

  /** Full-block count and partial index of one entry, each clamped. */
  function BarLayout(value: real, maxValue: real): (l: Layout)
    requires LayoutDefined(value, maxValue)
    ensures ValidLayout(l)
  {
    var s := Scaled(value, maxValue);
    var full := SizeCast(s);
    var partial := SizeCast((s - full as real) * Resolution as real);
    Layout(if full > BarWidth then BarWidth else full,
           if partial > Resolution - 1 then Resolution - 1 else partial)
  }

  function Repeat(g: Glyph, n: nat): (r: seq<Glyph>)
    ensures |r| == n
    ensures forall i :: 0 <= i < n ==> r[i] == g
  {
    seq(n, _ => g)
  }

  /** The glyph cells of a bar: full blocks, the partial block when there is room
      and a nonzero partial index, then spaces up to the bar width. */
  function BarGlyphs(l: Layout): (bar: seq<Glyph>)
    requires ValidLayout(l)
    ensures |bar| == BarWidth
    ensures ValidBar(bar)
    ensures forall i :: 0 <= i < l.full ==> bar[i] == Full
    ensures l.full < BarWidth ==> bar[l.full] == (if l.partial > 0 then Partial(l.partial) else Space)
    ensures forall i :: l.full < i < BarWidth ==> bar[i] == Space
  {
    var showPartial := l.full < BarWidth && l.partial > 0;
    var visible := l.full + (if l.partial > 0 then 1 else 0);
    var padding := if BarWidth > visible then BarWidth - visible else 0;
    Repeat(Full, l.full) + (if showPartial then [Partial(l.partial)] else []) + Repeat(Space, padding)
  }

  /** How many eighths of a cell a glyph covers. */
  function GlyphEighths(g: Glyph): nat {
    match g
    case Full => Resolution
    case Partial(k) => k
    case Space => 0
  }

  /** The filled length of a bar in eighths of a cell: what a reader sees. */
  function Eighths(bar: seq<Glyph>): nat {
    if |bar| == 0 then 0 else GlyphEighths(bar[0]) + Eighths(bar[1..])
  }

  /** The label after the separator: ` name (value)`, the value printed as `{:.0f}`
      by the supplied formatter. */
  function Label(name: string, value: real, render: real -> string): (tag: string)
    ensures |tag| == |name| + |render(value)| + 4
    ensures tag[0] == ' ' && tag[1..|name| + 1] == name
    ensures tag[|name| + 1..|name| + 3] == " (" && tag[|name| + 3..|tag| - 1] == render(value)
    ensures tag[|tag| - 1] == ')'
  {
    var tag := " " + name + " (" + render(value) + ")";
    assert tag[1..|name| + 1] == name;
    assert tag[|name| + 1..|name| + 3] == " (";
    assert tag[|name| + 3..|tag| - 1] == render(value);
    tag
  }

  /** One line of the chart, without its terminating newline. */
  function EntryText(name: string, value: real, maxValue: real, render: real -> string): (text: string)
    requires LayoutDefined(value, maxValue)
    ensures |text| > BarWidth
    ensures text[..BarWidth] == RenderBar(BarGlyphs(BarLayout(value, maxValue)))
    ensures text[BarWidth] == Separator
    ensures text[BarWidth + 1..] == Label(name, value, render)
  {
    var bar := RenderBar(BarGlyphs(BarLayout(value, maxValue)));
    var text := bar + [Separator] + Label(name, value, render);
    assert text[..BarWidth] == bar;
    assert text[BarWidth + 1..] == Label(name, value, render);
    text
  }

  /** The value `std::max_element` finds. */
  function MaxOf(values: seq<real>): (m: real)
    requires |values| > 0
    ensures forall i :: 0 <= i < |values| ==> values[i] <= m
    ensures exists i :: 0 <= i < |values| && values[i] == m
  {
    if |values| == 1 then values[0]
    else
      var rest := MaxOf(values[1..]);
      assert forall i :: 1 <= i < |values| ==> values[i] == values[1..][i - 1];
      if values[0] >= rest then values[0] else rest
  }

  /** The inputs `format_bar_chart` either rejects, or can lay out without an
      undefined size cast. */
  predicate ChartDefined(names: seq<string>, values: seq<real>) {
    |names| == |values| && |names| > 0 ==>
      forall i :: 0 <= i < |values| ==> LayoutDefined(values[i], MaxOf(values))
  }

  /** Each line followed by a newline. */
  function JoinLines(lines: seq<string>): (s: string)
    ensures |s| >= |lines|
    ensures |lines| > 0 ==> s[|s| - 1] == '\n'
  {
    if |lines| == 0 then [] else lines[0] + "\n" + JoinLines(lines[1..])
  }

  /** Index of the first newline, or the length when there is none. */
  function NewlineIndex(s: string): (k: nat)
    ensures k <= |s|
    ensures forall i :: 0 <= i < k ==> s[i] != '\n'
    ensures k < |s| ==> s[k] == '\n'
  {
    if |s| == 0 || s[0] == '\n' then 0 else 1 + NewlineIndex(s[1..])
  }

  /** Cut text after each newline (the inverse of `JoinLines`). */
  function SplitLines(s: string): seq<string>
    decreases |s|
  {
    if |s| == 0 then []
    else
      var k := NewlineIndex(s);
      if k == |s| then [s] else [s[..k]] + SplitLines(s[k + 1..])
  }

  /** `format_bar_chart`: empty when the sizes differ or there is nothing to chart,
      otherwise one newline-terminated line per entry, in input order. */
  function FormatBarChart(names: seq<string>, values: seq<real>, render: real -> string): (out: string)
    requires ChartDefined(names, values)
    ensures out == [] <==> |names| != |values| || |names| == 0
    ensures out != [] ==> out[|out| - 1] == '\n'
  {
    if |names| != |values| || |names| == 0 then []
    else
      var m := MaxOf(values);
      JoinLines(seq(|names|, i requires 0 <= i < |names| => EntryText(names[i], values[i], m, render)))
  }

  // ---------------------------------------------------------------------------
  // Lemmas
  // ---------------------------------------------------------------------------

  lemma {:induction false} EighthsAppend(a: seq<Glyph>, b: seq<Glyph>)
    ensures Eighths(a + b) == Eighths(a) + Eighths(b)
    decreases |a|
  {
    if |a| == 0 {
      assert a + b == b;
    } else {
      assert (a + b)[1..] == a[1..] + b;
      EighthsAppend(a[1..], b);
    }
  }

  lemma {:induction false} EighthsRepeat(g: Glyph, n: nat)
    ensures Eighths(Repeat(g, n)) == n * GlyphEighths(g)
  {
    if n > 0 {
      assert Repeat(g, n)[1..] == Repeat(g, n - 1);
      EighthsRepeat(g, n - 1);
    }
  }

  /** The filled length of a laid-out bar: eight per full block plus the partial
      block, which is dropped once the bar is full. */
  lemma BarGlyphsEighths(l: Layout)
    requires ValidLayout(l)
    ensures Eighths(BarGlyphs(l)) == if l.full < BarWidth then Resolution * l.full + l.partial
                                     else Resolution * BarWidth
  {
    var showPartial := l.full < BarWidth && l.partial > 0;
    var visible := l.full + (if l.partial > 0 then 1 else 0);
    var padding := if BarWidth > visible then BarWidth - visible else 0;
    var mid: seq<Glyph> := if showPartial then [Partial(l.partial)] else [];
    assert BarGlyphs(l) == Repeat(Full, l.full) + mid + Repeat(Space, padding);
    EighthsAppend(Repeat(Full, l.full) + mid, Repeat(Space, padding));
    EighthsAppend(Repeat(Full, l.full), mid);
    EighthsRepeat(Full, l.full);
    EighthsRepeat(Space, padding);
    if showPartial {
      assert Eighths(mid) == l.partial + Eighths(mid[1..]);
    }
  }

  lemma FloorUnique(x: real, n: int)
    requires n as real <= x < n as real + 1.0
    ensures x.Floor == n
  {
  }

  /** The bar an entry gets shows `floor(8 * scaled)` eighths, clamped to the
      bar's capacity: the full-block count and the partial index together are
      the scaled length at 1/8 resolution. */
  lemma LayoutEighths(value: real, maxValue: real)
    requires LayoutDefined(value, maxValue)
    ensures Eighths(BarGlyphs(BarLayout(value, maxValue)))
            == Clamp((Scaled(value, maxValue) * Resolution as real).Floor, 0, Resolution * BarWidth)
  {
    var s := Scaled(value, maxValue);
    var l := BarLayout(value, maxValue);
    BarGlyphsEighths(l);
    var full := SizeCast(s);
    var t := (s - full as real) * 8.0;
    var partial := SizeCast(t);
    if s >= 0.0 {
      assert full == s.Floor;
      assert 0.0 <= t < 8.0;
      assert partial == t.Floor && partial < 8;
      assert l.partial == partial;
      if full < BarWidth {
        assert l.full == full;
        FloorUnique(s * 8.0, 8 * full + partial);
      } else {
        assert l.full == BarWidth;
        assert s * 8.0 >= 320.0;
      }
    } else {
      assert full == 0 && t == s * 8.0;
      assert l == Layout(0, 0);
      FloorUnique(s * 8.0, -1);
    }
  }

  /** Against a common positive maximum, a larger value never gets a shorter bar. */
  lemma BarsMonotone(v1: real, v2: real, maxValue: real)
    requires maxValue > 0.0 && v1 <= v2
    requires LayoutDefined(v1, maxValue) && LayoutDefined(v2, maxValue)
    ensures Eighths(BarGlyphs(BarLayout(v1, maxValue))) <= Eighths(BarGlyphs(BarLayout(v2, maxValue)))
  {
    LayoutEighths(v1, maxValue);
    LayoutEighths(v2, maxValue);
    ScaledMonotone(v1, v2, maxValue);
    var x1 := Scaled(v1, maxValue) * Resolution as real;
    var x2 := Scaled(v2, maxValue) * Resolution as real;
    assert x1 <= x2;
    assert x1.Floor <= x2.Floor;
  }

  lemma ScaledMonotone(v1: real, v2: real, maxValue: real)
    requires maxValue > 0.0 && v1 <= v2
    ensures Scaled(v1, maxValue) <= Scaled(v2, maxValue)
  {
    assert v2 / maxValue - v1 / maxValue == (v2 - v1) / maxValue;
    assert (v2 - v1) / maxValue >= 0.0;
  }

  /** The maximum entry is drawn as 40 full blocks. */
  lemma MaxEntryFullBar(maxValue: real)
    requires maxValue != 0.0
    ensures LayoutDefined(maxValue, maxValue)
    ensures BarLayout(maxValue, maxValue) == Layout(BarWidth, 0)
    ensures BarGlyphs(BarLayout(maxValue, maxValue)) == Repeat(Full, BarWidth)
  {
    assert Scaled(maxValue, maxValue) == 40.0;
  }

  /** An entry at half the maximum is drawn as exactly 20 full blocks and 20 spaces. */
  lemma HalfEntryHalfBar(maxValue: real)
    requires maxValue > 0.0
    ensures LayoutDefined(maxValue / 2.0, maxValue)
    ensures BarLayout(maxValue / 2.0, maxValue) == Layout(20, 0)
    ensures BarGlyphs(BarLayout(maxValue / 2.0, maxValue)) == Repeat(Full, 20) + Repeat(Space, 20)
  {
    assert Scaled(maxValue / 2.0, maxValue) == 20.0;
  }

  /** With a zero maximum there is no division and every bar is blank. */
  lemma ZeroMaxBlank(value: real)
    ensures LayoutDefined(value, 0.0)
    ensures BarLayout(value, 0.0) == Layout(0, 0)
    ensures BarGlyphs(BarLayout(value, 0.0)) == Repeat(Space, BarWidth)
  {
  }

  /** A partial block appears exactly when the bar is not full and the partial
      index is nonzero, and then right after the full blocks. */
  lemma PartialPlacement(l: Layout, i: nat)
    requires ValidLayout(l) && i < BarWidth
    ensures BarGlyphs(l)[i].Partial? <==> i == l.full && l.full < BarWidth && l.partial > 0
  {
  }

  /** Both casts are defined for a value between zero and the maximum: the
      scaled length lies in [0, 40] and its fractional part times 8 in [0, 8). */
  lemma InRangeLayoutDefined(value: real, maxValue: real)
    requires 0.0 <= value <= maxValue
    ensures LayoutDefined(value, maxValue)
  {
    var s := Scaled(value, maxValue);
    if maxValue != 0.0 {
      assert s == value / maxValue * BarWidth as real;
      assert value / maxValue <= 1.0;
      assert 0.0 <= s <= BarWidth as real;
    }
  }

  /** Non-negative values, as throughputs are, always chart. */
  lemma NonNegativeChartDefined(names: seq<string>, values: seq<real>)
    requires forall i :: 0 <= i < |values| ==> values[i] >= 0.0
    ensures ChartDefined(names, values)
  {
    if |names| == |values| && |names| > 0 {
      forall i | 0 <= i < |values| ensures LayoutDefined(values[i], MaxOf(values)) {
        InRangeLayoutDefined(values[i], MaxOf(values));
      }
    }
  }

  lemma {:induction false} JoinThenSplit(lines: seq<string>)
    requires forall j :: 0 <= j < |lines| ==> NoNewline(lines[j])
    ensures SplitLines(JoinLines(lines)) == lines
  {
    if |lines| > 0 {
      var head, tail := lines[0], lines[1..];
      var rest := JoinLines(tail);
      assert SplitLines(rest) == tail by { JoinThenSplit(tail); }
      assert JoinLines(lines) == head + ("\n" + rest) by { JoinLinesCons(lines); }
      assert SplitLines(head + ("\n" + rest)) == [head] + SplitLines(rest) by { NewlineAfter(head, rest); }
      assert [head] + tail == lines;
    }
  }

  lemma JoinLinesCons(lines: seq<string>)
    requires |lines| > 0
    ensures JoinLines(lines) == lines[0] + ("\n" + JoinLines(lines[1..]))
  {
  }

  lemma NewlineAfter(line: string, rest: string)
    requires NoNewline(line)
    ensures NewlineIndex(line + ("\n" + rest)) == |line|
    ensures SplitLines(line + ("\n" + rest)) == [line] + SplitLines(rest)
  {
    var s := line + ("\n" + rest);
    var k := NewlineIndex(s);
    assert s[|line|] == '\n';
    assert forall i :: 0 <= i < |line| ==> s[i] == line[i];
    assert k == |line|;
    assert s[..k] == line;
    assert s[k + 1..] == rest;
  }

  predicate NoNewline(s: string) {
    forall i :: 0 <= i < |s| ==> s[i] != '\n'
  }

  /** One line per entry, in input order: splitting the chart at its newlines gives
      back each entry's bar, separator and label, provided no name and no printed
      value contains a newline; and the chart is exactly those lines, each
      terminated by a newline, the last one included. */
  lemma OneLinePerEntry(names: seq<string>, values: seq<real>, render: real -> string)
    requires |names| == |values| && |names| > 0
    requires ChartDefined(names, values)
    requires forall j :: 0 <= j < |names| ==> NoNewline(names[j])
    requires forall v :: NoNewline(render(v))
    ensures var lines := SplitLines(FormatBarChart(names, values, render));
            |lines| == |names|
            && (forall j :: 0 <= j < |names| ==> lines[j] == EntryText(names[j], values[j], MaxOf(values), render))
            && JoinLines(lines) == FormatBarChart(names, values, render)
  {
    var m := MaxOf(values);
    var lines := seq(|names|, i requires 0 <= i < |names| => EntryText(names[i], values[i], m, render));
    forall j, i | 0 <= j < |lines| && 0 <= i < |lines[j]| ensures lines[j][i] != '\n' {
      var text := lines[j];
      var bar := BarGlyphs(BarLayout(values[j], m));
      if i < BarWidth {
        assert text[i] == text[..BarWidth][i] == GlyphChar(bar[i]);
      } else if i > BarWidth {
        var tag := Label(names[j], values[j], render);
        assert text[i] == text[BarWidth + 1..][i - BarWidth - 1] == tag[i - BarWidth - 1];
        assert NoNewline(names[j]) && NoNewline(render(values[j]));
        assert tag == " " + names[j] + " (" + render(values[j]) + ")";
      }
    }
    JoinThenSplit(lines);
  }
}
