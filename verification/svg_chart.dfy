/** The discrete decisions of the SVG bar chart: the input check, the gradient
    definitions (one per palette colour, each paired with its 30%-darkened
    shade), the scale maximum, and which gradient fills which bar. Geometry and
    markup text are not part of this model. */
module SvgChart {
  import opened Wrappers
  import opened HexColor
  import opened Numeric

  /** What `generate_bar_chart_svg` can throw. */
  datatype ChartError =
    | LengthMismatch                          // names and data differ in length
    | BadColour(index: nat, cause: HexError)  // palette entry `index` does not parse

  /** The fill attribute of a bar: `black`, or `url(#grad<index>)`. */
  datatype Fill = Black | Gradient(index: nat)

  /** `<linearGradient id="grad<id>">` running from `base` down to `dark`. */
  datatype GradientDef = GradientDef(id: nat, base: string, dark: string)

  datatype BarPlan = BarPlan(name: string, value: real, fill: Fill)

  /** Everything the chart decides before it prints markup. */
  datatype ChartPlan = ChartPlan(maxValue: real, gradients: seq<GradientDef>, bars: seq<BarPlan>)

  /** How much the lower stop of each gradient is darkened. */
  const GradientDarkening: real := 0.3

  /** Bar `i` cycles through the palette; an empty palette paints it black. */
  function BarFill(i: nat, colourCount: nat): (f: Fill)
    ensures f == Black <==> colourCount == 0
    ensures f.Gradient? ==> f.index < colourCount && i == (i / colourCount) * colourCount + f.index
  {
    if colourCount == 0 then Black else Gradient(i % colourCount)
  }

  /** The first palette entry from `start` on that `hex_to_rgb` rejects, if any. */
  function FirstBadFrom(colours: seq<string>, start: nat): (k: Option<nat>)
    requires start <= |colours|
    ensures k.None? <==> forall i :: start <= i < |colours| ==> HexToRgb(colours[i]).Ok?
    ensures k.Some? ==> start <= k.value < |colours| && HexToRgb(colours[k.value]).Err?
                        && forall i :: start <= i < k.value ==> HexToRgb(colours[i]).Ok?
    decreases |colours| - start
  {
    if start == |colours| then None
    else if HexToRgb(colours[start]).Err? then Some(start)
    else FirstBadFrom(colours, start + 1)
  }

  /** The gradient definitions of a palette that parses throughout. */
  function Shades(colours: seq<string>): (defs: seq<GradientDef>)
    requires forall i :: 0 <= i < |colours| ==> HexToRgb(colours[i]).Ok?
    ensures |defs| == |colours|
    ensures forall i :: 0 <= i < |colours| ==>
              defs[i].id == i && defs[i].base == colours[i]
              && defs[i].dark == RgbToHex(DarkenRgb(HexToRgb(colours[i]).value, GradientDarkening))
              && HexToRgb(defs[i].dark) == Ok(DarkenRgb(HexToRgb(colours[i]).value, GradientDarkening))
  {
    var defs := seq(|colours|, i requires 0 <= i < |colours| =>
                      GradientDef(i, colours[i], DarkenColor(colours[i], GradientDarkening).value));
    assert forall i :: 0 <= i < |colours| ==>
             HexToRgb(defs[i].dark) == Ok(DarkenRgb(HexToRgb(colours[i]).value, GradientDarkening)) by {
      forall i | 0 <= i < |colours|
        ensures HexToRgb(defs[i].dark) == Ok(DarkenRgb(HexToRgb(colours[i]).value, GradientDarkening))
      {
        DarkenParsesBack(colours[i], GradientDarkening);
      }
    }
    defs
  }

  /** The `<defs>` loop: one gradient per palette colour, the colour over its
      30%-darkened shade, or the error `darken_color` throws at the first colour
      that does not parse. */
  function GradientDefs(colours: seq<string>): (res: Result<seq<GradientDef>, ChartError>)
    ensures res.Ok? <==> forall i :: 0 <= i < |colours| ==> HexToRgb(colours[i]).Ok?
    ensures res.Ok? ==> |res.value| == |colours|
    ensures res.Ok? ==> forall i :: 0 <= i < |colours| ==>
              res.value[i].id == i && res.value[i].base == colours[i]
              && res.value[i].dark == RgbToHex(DarkenRgb(HexToRgb(colours[i]).value, GradientDarkening))
              && HexToRgb(res.value[i].dark) == Ok(DarkenRgb(HexToRgb(colours[i]).value, GradientDarkening))
    ensures res.Err? ==> res.error.BadColour?
                         && res.error.index < |colours|
                         && HexToRgb(colours[res.error.index]) == Err(res.error.cause)
                         && forall i :: 0 <= i < res.error.index ==> HexToRgb(colours[i]).Ok?
  {
    match FirstBadFrom(colours, 0)
    case Some(k) => Err(BadColour(k, HexToRgb(colours[k]).error))
    case None => Ok(Shades(colours))
  }

  /** The largest data value, or 0 when every value is at most 0. */
  function DataMax(data: seq<real>): (m: real)
    ensures m >= 0.0
    ensures forall i :: 0 <= i < |data| ==> data[i] <= m
    ensures m == 0.0 || exists i :: 0 <= i < |data| && data[i] == m
  {
    if |data| == 0 then 0.0
    else
      var rest := DataMax(data[1..]);
      assert forall i :: 1 <= i < |data| ==> data[i] == data[1..][i - 1];
      if data[0] > rest then data[0] else rest
  }

  /** The value the chart scales against: the largest value when some value is
      positive, else 1, so there is no division by 0. */
  function ScaleMax(data: seq<real>): (m: real)
    ensures m > 0.0
    ensures forall i :: 0 <= i < |data| ==> data[i] <= m
    ensures (exists i :: 0 <= i < |data| && data[i] > 0.0) ==> exists i :: 0 <= i < |data| && data[i] == m
    ensures (forall i :: 0 <= i < |data| ==> data[i] <= 0.0) ==> m == 1.0
  {
    var m := DataMax(data);
    if m == 0.0 then 1.0 else m
  }

  /** `generate_bar_chart_svg`, reduced to its decisions: the length check
      first, then the gradients (whose first bad colour is the error), the
      scale, and one bar per entry. */
  function GenerateBarChart(names: seq<string>, data: seq<real>, colours: seq<string>): (res: Result<ChartPlan, ChartError>)
    ensures res == Err(LengthMismatch) <==> |names| != |data|
    ensures res.Ok? <==> |names| == |data| && forall i :: 0 <= i < |colours| ==> HexToRgb(colours[i]).Ok?
    ensures res.Ok? ==> |res.value.gradients| == |colours| && |res.value.bars| == |data|
    ensures res.Ok? ==> forall i :: 0 <= i < |data| ==>
              res.value.bars[i] == BarPlan(names[i], data[i], BarFill(i, |colours|))
    ensures res.Ok? ==> res.value.maxValue == ScaleMax(data) && GradientDefs(colours) == Ok(res.value.gradients)
    ensures res.Err? && |names| == |data| ==> GradientDefs(colours) == Err(res.error)
  {
    if |names| != |data| then Err(LengthMismatch)
    else
      var defs :- GradientDefs(colours);
      Ok(ChartPlan(ScaleMax(data), defs, seq(|data|, i requires 0 <= i < |data| => BarPlan(names[i], data[i], BarFill(i, |colours|)))))
  }

  // ---------------------------------------------------------------------------
  // Lemmas
  // ---------------------------------------------------------------------------

  /** The palette repeats with period equal to its length. */
  lemma FillCycles(i: nat, n: nat)
    ensures BarFill(i + n, n) == BarFill(i, n)
  {
    if n > 0 {
      DivModUnique(i + n, n, i / n + 1, i % n);
    }
  }

  /** Within one pass over the palette every bar gets a different gradient. */
  lemma FillsDistinctWithinPalette(i: nat, j: nat, n: nat)
    requires i < j < n
    ensures BarFill(i, n) != BarFill(j, n)
  {
  }
}
