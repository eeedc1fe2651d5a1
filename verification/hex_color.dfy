/** The `#RRGGBB` colour codec used by the SVG chart: parsing a hex colour into
    three channels, printing three channels back as six upper-case hex digits,
    and darkening a colour by a fraction. Strings are sequences of characters. */
module HexColor {
  import opened Wrappers
  import opened Numeric

  /** One past the largest value of a 32-bit `unsigned int`, the parse target. */
  const Uint32Limit: nat := 0x1_0000_0000

  /** A colour whose channels are C++ `int`s; only the parser guarantees bytes. */
  datatype RGB = RGB(r: int, g: int, b: int)

  /** The two `invalid_argument` messages `hex_to_rgb` can throw. */
  datatype HexError =
    | MissingHash    // "Hex color must start with '#'"
    | InvalidFormat  // "Invalid hex color format"

  predicate IsByte(x: int) {
    0 <= x < 256
  }

  predicate IsByteColor(c: RGB) {
    IsByte(c.r) && IsByte(c.g) && IsByte(c.b)
  }

  /** A digit that base-16 `std::from_chars` accepts, in either case. */
  predicate IsHexDigit(c: char) {
    '0' <= c <= '9' || 'a' <= c <= 'f' || 'A' <= c <= 'F'
  }

  predicate IsUpperHexDigit(c: char) {
    '0' <= c <= '9' || 'A' <= c <= 'F'
  }

  predicate AllHexDigits(ds: seq<char>) {
    forall i :: 0 <= i < |ds| ==> IsHexDigit(ds[i])
  }

  function DigitValue(c: char): (d: nat)
    requires IsHexDigit(c)
    ensures d < 16
    ensures d < 10 <==> '0' <= c <= '9'
  {
    if '0' <= c <= '9' then c as int - '0' as int
    else if 'a' <= c <= 'f' then c as int - 'a' as int + 10
    else c as int - 'A' as int + 10
  }

  /** The digit `{:X}` prints for a value below 16. */
  function UpperDigit(d: nat): (c: char)
    requires d < 16
    ensures IsUpperHexDigit(c) && IsHexDigit(c)
    ensures DigitValue(c) == d
  {
    if d < 10 then ('0' as int + d) as char else ('A' as int + d - 10) as char
  }

  /** The upper-case spelling of a hex digit (identity on '0'..'9' and 'A'..'F'). */
  function ToUpperDigit(c: char): char
    requires IsHexDigit(c)
  {
    if 'a' <= c <= 'f' then (c as int - 'a' as int + 'A' as int) as char else c
  }

  /** Value of a run of hex digits, most significant first. */
  function HexValue(ds: seq<char>): nat
    requires AllHexDigits(ds)
  {
    if |ds| == 0 then 0 else HexValue(ds[..|ds| - 1]) * 16 + DigitValue(ds[|ds| - 1])
  }

  function Pow16(n: nat): (p: nat)
    ensures p > 0
  {
    if n == 0 then 1 else 16 * Pow16(n - 1)
  }

  /** How many characters `from_chars` consumes: the longest all-hex prefix. */
  function HexRunLength(s: seq<char>): (n: nat)
    ensures n <= |s|
    ensures AllHexDigits(s[..n])
    ensures n < |s| ==> !IsHexDigit(s[n])
  {
    if |s| == 0 || !IsHexDigit(s[0]) then 0
    else
      var rest := HexRunLength(s[1..]);
      assert s[..1 + rest] == [s[0]] + s[1..][..rest];
      1 + rest
  }

  /** Bytes 2, 1 and 0 of the parsed value: its low 24 bits, split into three
      channels; anything above bit 23 is dropped. */
  function Channels(v: nat): (c: RGB)
    ensures IsByteColor(c)
    ensures c.r * 0x1_0000 + c.g * 0x100 + c.b == v % 0x100_0000
  {
    LowBytes(v);
    RGB((v / 0x1_0000) % 0x100, (v / 0x100) % 0x100, v % 0x100)
  }

  /** `hex_to_rgb`: `#`, then the leading run of hex digits parsed as a 32-bit
      unsigned value; characters after the run are ignored. */
  function HexToRgb(hex: string): (res: Result<RGB, HexError>)
    ensures res == Err(MissingHash) <==> |hex| == 0 || hex[0] != '#'
    ensures res.Ok? ==> IsByteColor(res.value)
  {
    if |hex| == 0 || hex[0] != '#' then Err(MissingHash)
    else
      var digits := hex[1..][..HexRunLength(hex[1..])];
      if |digits| == 0 || HexValue(digits) >= Uint32Limit then Err(InvalidFormat)
      else Ok(Channels(HexValue(digits)))
  }

  /** `x & 0xFF` on a two's-complement `int`, i.e. its low byte. */
  function Mask(x: int): (b: int)
    ensures IsByte(b)
    ensures (x - b) % 256 == 0
  {
    x % 256
  }

  /** `{:02X}` of a byte. */
  function ByteHex(x: int): (s: string)
    requires IsByte(x)
    ensures |s| == 2 && IsUpperHexDigit(s[0]) && IsUpperHexDigit(s[1])
  {
    [UpperDigit(x / 16), UpperDigit(x % 16)]
  }

  /** `rgb_to_hex`: `#` and two upper-case hex digits per masked channel. */
  function RgbToHex(c: RGB): (s: string)
    ensures |s| == 7 && s[0] == '#'
    ensures forall i :: 1 <= i < 7 ==> IsUpperHexDigit(s[i])
  {
    "#" + ByteHex(Mask(c.r)) + ByteHex(Mask(c.g)) + ByteHex(Mask(c.b))
  }

  function MaskColor(c: RGB): (m: RGB)
    ensures IsByteColor(m)
  {
    RGB(Mask(c.r), Mask(c.g), Mask(c.b))
  }

  /** One channel of `darken_color`: scale by `1 - p`, truncate, clamp to a byte. */
  function DarkenChannel(c: int, p: real): (d: int)
    ensures IsByte(d)
    ensures 0 <= c && 0.0 <= p <= 1.0 ==> d <= c
  {
    var d := Clamp(Trunc(c as real * (1.0 - p)), 0, 255);
    assert 0 <= c && 0.0 <= p <= 1.0 ==> d <= c by {
      if 0 <= c && 0.0 <= p <= 1.0 {
        ScaleDown(c as real, p);
      }
    }
    d
  }

  /** Darkening all three channels: a byte colour, never brighter than the
      input in any channel when the fraction is in [0, 1]. */
  function DarkenRgb(c: RGB, p: real): (d: RGB)
    ensures IsByteColor(d)
    ensures IsByteColor(c) && 0.0 <= p <= 1.0 ==> d.r <= c.r && d.g <= c.g && d.b <= c.b
  {
    RGB(DarkenChannel(c.r, p), DarkenChannel(c.g, p), DarkenChannel(c.b, p))
  }

  /** `darken_color`: fails exactly as `hex_to_rgb` fails on the input. */
  function DarkenColor(hex: string, p: real): (res: Result<string, HexError>)
    ensures res.Err? <==> HexToRgb(hex).Err?
    ensures res.Err? ==> res.error == HexToRgb(hex).error
    ensures res.Ok? ==> |res.value| == 7 && res.value[0] == '#'
  {
    var c :- HexToRgb(hex);
    Ok(RgbToHex(DarkenRgb(c, p)))
  }

  // ---------------------------------------------------------------------------
  // Lemmas
  // ---------------------------------------------------------------------------

  /** The value of a concatenation: the left part shifted by the right part's digits. */
  lemma {:induction false} HexValueAppend(xs: seq<char>, ys: seq<char>)
    requires AllHexDigits(xs) && AllHexDigits(ys)
    ensures AllHexDigits(xs + ys)
    ensures HexValue(xs + ys) == HexValue(xs) * Pow16(|ys|) + HexValue(ys)
    decreases |ys|
  {
    var zs := xs + ys;
    assert AllHexDigits(zs) by {
      forall i | 0 <= i < |zs| ensures IsHexDigit(zs[i]) {
        if i < |xs| { assert zs[i] == xs[i]; } else { assert zs[i] == ys[i - |xs|]; }
      }
    }
    if |ys| == 0 {
      assert zs == xs;
    } else {
      var init := ys[..|ys| - 1];
      assert zs[..|zs| - 1] == xs + init;
      assert zs[|zs| - 1] == ys[|ys| - 1];
      assert AllHexDigits(init) by {
        forall i | 0 <= i < |init| ensures IsHexDigit(init[i]) { assert init[i] == ys[i]; }
      }
      HexValueAppend(xs, init);
      var d := DigitValue(ys[|ys| - 1]);
      assert HexValue(zs) == HexValue(xs + init) * 16 + d;
      assert HexValue(ys) == HexValue(init) * 16 + d;
      assert Pow16(|ys|) == Pow16(|init|) * 16;
      ShiftDigit(HexValue(xs), Pow16(|init|), HexValue(init), d);
    }
  }

  lemma ShiftDigit(a: int, p: int, b: int, d: int)
    ensures (a * p + b) * 16 + d == a * (p * 16) + (b * 16 + d)
  {
  }

  /** Two hex digits denote `16 * hi + lo`. */
  lemma PairValue(c0: char, c1: char)
    requires IsHexDigit(c0) && IsHexDigit(c1)
    ensures AllHexDigits([c0, c1])
    ensures HexValue([c0, c1]) == DigitValue(c0) * 16 + DigitValue(c1)
  {
    assert [c0, c1][..1] == [c0];
    assert [c0][..0] == [];
    assert HexValue([c0]) == DigitValue(c0);
  }

  /** Printing a byte with `{:02X}` and reading it back gives the byte. */
  lemma ByteHexValue(x: int)
    requires IsByte(x)
    ensures AllHexDigits(ByteHex(x))
    ensures HexValue(ByteHex(x)) == x
  {
    PairValue(UpperDigit(x / 16), UpperDigit(x % 16));
  }

  /** Six digits split into three byte-sized pairs. */
  lemma SixDigitValue(p: seq<char>, q: seq<char>, s: seq<char>)
    requires |p| == 2 && |q| == 2 && |s| == 2
    requires AllHexDigits(p) && AllHexDigits(q) && AllHexDigits(s)
    ensures AllHexDigits(p + q + s)
    ensures HexValue(p + q + s) == HexValue(p) * 0x1_0000 + HexValue(q) * 0x100 + HexValue(s)
  {
    HexValueAppend(p, q);
    HexValueAppend(p + q, s);
    assert Pow16(2) == 0x100;
  }

  /** Splitting a packed 24-bit value recovers its three bytes. */
  lemma ChannelsOfPacked(r: int, g: int, b: int)
    requires IsByte(r) && IsByte(g) && IsByte(b)
    ensures Channels(r * 0x1_0000 + g * 0x100 + b) == RGB(r, g, b)
  {
    var v := r * 0x1_0000 + g * 0x100 + b;
    var low := g * 0x100 + b;
    assert 0 <= low < 0x1_0000;
    assert v / 0x1_0000 == r;
    assert v / 0x100 == r * 0x100 + g;
    assert (r * 0x100 + g) % 0x100 == g;
    assert v % 0x100 == b;
  }

  /** Round trip: parsing what `rgb_to_hex` prints gives back the masked colour. */
  lemma RoundTrip(c: RGB)
    ensures HexToRgb(RgbToHex(c)) == Ok(MaskColor(c))
  {
    var m := MaskColor(c);
    var p, q, s := ByteHex(m.r), ByteHex(m.g), ByteHex(m.b);
    var hex := RgbToHex(c);
    assert hex == "#" + (p + q + s);
    var body := hex[1..];
    assert body == p + q + s;
    ByteHexValue(m.r);
    ByteHexValue(m.g);
    ByteHexValue(m.b);
    SixDigitValue(p, q, s);
    var n := HexRunLength(body);
    assert n == 6;
    assert body[..n] == body;
    ChannelsOfPacked(m.r, m.g, m.b);
  }

  /** Masking is the identity on a colour the parser produced. */
  lemma MaskByteColor(c: RGB)
    requires IsByteColor(c)
    ensures MaskColor(c) == c
  {
  }

  /** The channels a seven-character `#` colour parses to: its three digit pairs. */
  lemma SixDigitParse(hex: string)
    requires |hex| == 7 && hex[0] == '#' && AllHexDigits(hex[1..])
    ensures IsHexDigit(hex[1]) && IsHexDigit(hex[2]) && IsHexDigit(hex[3])
    ensures IsHexDigit(hex[4]) && IsHexDigit(hex[5]) && IsHexDigit(hex[6])
    ensures HexToRgb(hex) == Ok(RGB(DigitValue(hex[1]) * 16 + DigitValue(hex[2]),
                                    DigitValue(hex[3]) * 16 + DigitValue(hex[4]),
                                    DigitValue(hex[5]) * 16 + DigitValue(hex[6])))
  {
    var body := hex[1..];
    assert forall i :: 1 <= i < 7 ==> hex[i] == body[i - 1];
    var p, q, s := [body[0], body[1]], [body[2], body[3]], [body[4], body[5]];
    assert body == p + q + s;
    PairValue(body[0], body[1]);
    PairValue(body[2], body[3]);
    PairValue(body[4], body[5]);
    SixDigitValue(p, q, s);
    var n := HexRunLength(body);
    assert n == 6;
    assert body[..n] == body;
    ChannelsOfPacked(HexValue(p), HexValue(q), HexValue(s));
  }

  /** Print-after-parse: a seven-character `#` colour comes back with its digits upper-cased. */
  lemma CanonicalForm(hex: string)
    requires |hex| == 7 && hex[0] == '#' && AllHexDigits(hex[1..])
    ensures HexToRgb(hex).Ok?
    ensures IsHexDigit(hex[1]) && IsHexDigit(hex[2]) && IsHexDigit(hex[3])
    ensures IsHexDigit(hex[4]) && IsHexDigit(hex[5]) && IsHexDigit(hex[6])
    ensures RgbToHex(HexToRgb(hex).value)
            == ['#', ToUpperDigit(hex[1]), ToUpperDigit(hex[2]), ToUpperDigit(hex[3]),
                ToUpperDigit(hex[4]), ToUpperDigit(hex[5]), ToUpperDigit(hex[6])]
  {
    SixDigitParse(hex);
    var x := DigitValue(hex[1]) * 16 + DigitValue(hex[2]);
    var y := DigitValue(hex[3]) * 16 + DigitValue(hex[4]);
    var z := DigitValue(hex[5]) * 16 + DigitValue(hex[6]);
    PairBytes(hex[1], hex[2]);
    PairBytes(hex[3], hex[4]);
    PairBytes(hex[5], hex[6]);
    var c := RGB(x, y, z);
    MaskByteColor(c);
    var px, py, pz := ByteHex(x), ByteHex(y), ByteHex(z);
    assert RgbToHex(c) == "#" + px + py + pz;
    assert px == [ToUpperDigit(hex[1]), ToUpperDigit(hex[2])];
    assert py == [ToUpperDigit(hex[3]), ToUpperDigit(hex[4])];
    assert pz == [ToUpperDigit(hex[5]), ToUpperDigit(hex[6])];
  }

  /** `{:02X}` of a two-digit value is its digits, upper-cased. */
  lemma PairBytes(c0: char, c1: char)
    requires IsHexDigit(c0) && IsHexDigit(c1)
    ensures IsByte(DigitValue(c0) * 16 + DigitValue(c1))
    ensures ByteHex(DigitValue(c0) * 16 + DigitValue(c1)) == [ToUpperDigit(c0), ToUpperDigit(c1)]
  {
    var x := DigitValue(c0) * 16 + DigitValue(c1);
    assert x / 16 == DigitValue(c0) && x % 16 == DigitValue(c1);
    UpperOfValue(c0);
    UpperOfValue(c1);
  }

  lemma UpperOfValue(c: char)
    requires IsHexDigit(c)
    ensures UpperDigit(DigitValue(c)) == ToUpperDigit(c)
  {
  }

  /** The three bytes `Channels` takes are the low 24 bits of `v`. */
  lemma LowBytes(v: nat)
    ensures (v / 0x1_0000) % 0x100 * 0x1_0000 + (v / 0x100) % 0x100 * 0x100 + v % 0x100 == v % 0x100_0000
  {
    var b := v % 0x100;
    var q1 := v / 0x100;
    var g := q1 % 0x100;
    var q2 := q1 / 0x100;
    var r := q2 % 0x100;
    var q3 := q2 / 0x100;
    assert v == q1 * 0x100 + b;
    assert q1 == q2 * 0x100 + g;
    assert q2 == q3 * 0x100 + r;
    assert v == q2 * 0x1_0000 + (g * 0x100 + b);
    DivModUnique(v, 0x1_0000, q2, g * 0x100 + b);
    assert v == q3 * 0x100_0000 + (r * 0x1_0000 + g * 0x100 + b);
    DivModUnique(v, 0x100_0000, q3, r * 0x1_0000 + g * 0x100 + b);
  }

  lemma {:induction false} Pow16Monotone(m: nat, n: nat)
    requires m <= n
    ensures Pow16(m) <= Pow16(n)
    decreases n - m
  {
    if m < n {
      Pow16Monotone(m, n - 1);
    }
  }

  /** Eight hex digits span exactly the 32-bit range. */
  lemma Pow16Eight()
    ensures Pow16(8) == Uint32Limit
  {
    assert Pow16(2) == 0x100;
    assert Pow16(4) == 0x1_0000;
    assert Pow16(6) == 0x100_0000;
  }

  /** `n` hex digits denote less than `16^n`. */
  lemma {:induction false} HexValueBelow(ds: seq<char>)
    requires AllHexDigits(ds)
    ensures HexValue(ds) < Pow16(|ds|)
    decreases |ds|
  {
    if |ds| > 0 {
      var init := ds[..|ds| - 1];
      assert forall i :: 0 <= i < |init| ==> init[i] == ds[i];
      HexValueBelow(init);
    }
  }

  /** A run of digits is worth at least its leading digit in its place. */
  lemma LeadingDigitBound(ds: seq<char>)
    requires AllHexDigits(ds) && |ds| > 0
    ensures HexValue(ds) >= DigitValue(ds[0]) * Pow16(|ds| - 1)
  {
    var head, rest := [ds[0]], ds[1..];
    assert ds == head + rest;
    assert forall i :: 0 <= i < |rest| ==> rest[i] == ds[i + 1];
    HexValueAppend(head, rest);
    assert head[..0] == [];
    assert HexValue(head) == DigitValue(ds[0]);
  }

  /** How `hex_to_rgb` treats `#`, a run of digits, then anything that does not
      start with a digit: no digit is the format error; one to eight digits
      parse, keeping the value's low 24 bits; a value that needs more than eight
      digits overflows the 32-bit target and is the format error too. */
  lemma DigitRunCases(ds: string, tail: string)
    requires AllHexDigits(ds)
    requires |tail| > 0 ==> !IsHexDigit(tail[0])
    ensures |ds| == 0 ==> HexToRgb("#" + ds + tail) == Err(InvalidFormat)
    ensures 1 <= |ds| <= 8 ==> HexToRgb("#" + ds + tail) == Ok(Channels(HexValue(ds)))
    ensures |ds| > 8 && DigitValue(ds[0]) > 0 ==> HexToRgb("#" + ds + tail) == Err(InvalidFormat)
  {
    TrailingIgnored(ds, tail);
    var hex := "#" + ds;
    assert hex[1..] == ds;
    RunOfDigitsThenStop(ds, []);
    assert ds + [] == ds;
    assert ds[..|ds|] == ds;
    Pow16Eight();
    if 1 <= |ds| <= 8 {
      HexValueBelow(ds);
      Pow16Monotone(|ds|, 8);
    }
    if |ds| > 8 && DigitValue(ds[0]) > 0 {
      LeadingDigitBound(ds);
      Pow16Monotone(8, |ds| - 1);
      MulBounds(DigitValue(ds[0]), Pow16(|ds| - 1));
    }
  }

  /** One more digit shifts the value up by one place. */
  lemma AppendDigit(ds: seq<char>, c: char)
    requires AllHexDigits(ds) && IsHexDigit(c)
    ensures AllHexDigits(ds + [c])
    ensures HexValue(ds + [c]) == HexValue(ds) * 16 + DigitValue(c)
  {
    assert (ds + [c])[..|ds|] == ds;
  }

  /** A three-digit colour is a small number, not a shorthand: `#FFF` is 0x000FFF. */
  lemma ShortForm()
    ensures HexToRgb("#FFF") == Ok(RGB(0, 15, 255))
  {
    ThreeDigitValue();
    DigitRunCases("FFF", []);
    assert "#" + "FFF" + [] == "#FFF";
    assert Channels(0xFFF) == RGB(0, 15, 255);
  }

  lemma ThreeDigitValue()
    ensures AllHexDigits("FFF") && HexValue("FFF") == 0xFFF
  {
    AppendDigit([], 'F');
    assert [] + ['F'] == "F";
    AppendDigit("F", 'F');
    assert "F" + ['F'] == "FF";
    AppendDigit("FF", 'F');
    assert "FF" + ['F'] == "FFF";
  }

  /** Colours with the same low 24 bits have the same channels. */
  lemma ChannelsLow24(v: nat, w: nat)
    requires v % 0x100_0000 == w % 0x100_0000
    ensures Channels(v) == Channels(w)
  {
    var c, d := Channels(v), Channels(w);
    ChannelsOfPacked(c.r, c.g, c.b);
    ChannelsOfPacked(d.r, d.g, d.b);
  }

  /** An eight-digit `#AARRGGBB` parses like `#RRGGBB`: the leading byte is dropped. */
  lemma LeadingByteDropped(aa: string, rgb: string)
    requires |aa| == 2 && |rgb| == 6 && AllHexDigits(aa) && AllHexDigits(rgb)
    ensures HexToRgb("#" + aa + rgb) == HexToRgb("#" + rgb)
  {
    HexValueAppend(aa, rgb);
    DigitRunCases(aa + rgb, []);
    DigitRunCases(rgb, []);
    assert "#" + (aa + rgb) + [] == "#" + aa + rgb;
    assert "#" + rgb + [] == "#" + rgb;
    assert Pow16(6) == 0x100_0000 by {
      assert Pow16(2) == 0x100;
      assert Pow16(4) == 0x1_0000;
    }
    HexValueBelow(rgb);
    DivModUnique(HexValue(aa + rgb), 0x100_0000, HexValue(aa), HexValue(rgb));
    DivModUnique(HexValue(rgb), 0x100_0000, 0, HexValue(rgb));
    ChannelsLow24(HexValue(aa + rgb), HexValue(rgb));
  }

  /** `#` alone has no digits to parse. */
  lemma EmptyRun()
    ensures HexToRgb("#") == Err(InvalidFormat)
  {
    DigitRunCases([], []);
    assert "#" + [] + [] == "#";
  }

  /** A nine-digit value of 2^32 does not fit the 32-bit target. */
  lemma Overflow()
    ensures HexToRgb("#100000000") == Err(InvalidFormat)
  {
    var ds := "100000000";
    NineDigits();
    DigitRunCases(ds, []);
    assert "#" + ds + [] == "#100000000";
  }

  lemma NineDigits()
    ensures AllHexDigits("100000000")
  {
    var ds := "100000000";
    forall i | 0 <= i < |ds| ensures IsHexDigit(ds[i]) {
      assert ds[i] == '1' || ds[i] == '0';
    }
  }

  /** A leading `0` does not change the parse, however long the run: with the
      cases of `DigitRunCases` this settles every run of digits, since stripping
      leading zeros reaches either the empty run or a nonzero leading digit. */
  lemma LeadingZeroIgnored(ds: string, tail: string)
    requires AllHexDigits(ds) && |ds| > 0
    requires |tail| > 0 ==> !IsHexDigit(tail[0])
    ensures HexToRgb("#" + ("0" + ds) + tail) == HexToRgb("#" + ds + tail)
  {
    var zs := "0" + ds;
    assert AllHexDigits(zs) by { HexValueAppend("0", ds); }
    assert HexToRgb("#" + zs + tail) == HexToRgb("#" + zs) by { TrailingIgnored(zs, tail); }
    assert HexToRgb("#" + ds + tail) == HexToRgb("#" + ds) by { TrailingIgnored(ds, tail); }
    LeadingZeroNoTail(ds);
  }

  lemma LeadingZeroNoTail(ds: string)
    requires AllHexDigits(ds) && |ds| > 0
    ensures HexToRgb("#" + ("0" + ds)) == HexToRgb("#" + ds)
  {
    var zs := "0" + ds;
    assert AllHexDigits(zs) && HexValue(zs) == HexValue(ds) by {
      HexValueAppend("0", ds);
      assert "0"[..0] == [];
      assert HexValue("0") == 0;
    }
    WholeRun(zs);
    WholeRun(ds);
  }

  /** `#` followed by nothing but hex digits parses the whole run. */
  lemma WholeRun(ds: string)
    requires AllHexDigits(ds)
    ensures HexToRgb("#" + ds)
            == if |ds| == 0 || HexValue(ds) >= Uint32Limit then Err(InvalidFormat) else Ok(Channels(HexValue(ds)))
  {
    assert HexRunLength(ds) == |ds| by {
      RunOfDigitsThenStop(ds, []);
      assert ds + [] == ds;
    }
    var a := "#" + ds;
    assert a[1..] == ds;
    assert ds[..|ds|] == ds;
  }

  /** Zero padding does not rescue an overflowing run: a `0` in front of more
      than eight digits led by a nonzero one is still the format error. */
  lemma PaddedOverflow(ds: string, tail: string)
    requires AllHexDigits(ds) && |ds| > 8 && DigitValue(ds[0]) > 0
    requires |tail| > 0 ==> !IsHexDigit(tail[0])
    ensures HexToRgb("#" + ("0" + ds) + tail) == Err(InvalidFormat)
  {
    LeadingZeroIgnored(ds, tail);
    DigitRunCases(ds, tail);
  }

  /** Nor does it change a short colour: `#0FFF` parses as `#FFF`. */
  lemma PaddedShortForm()
    ensures HexToRgb("#0FFF") == Ok(RGB(0, 15, 255))
  {
    var ds := "FFF";
    assert HexToRgb("#0FFF") == HexToRgb("#FFF") by {
      assert AllHexDigits(ds);
      LeadingZeroNoTail(ds);
      assert "#" + ("0" + ds) == "#0FFF";
      assert "#" + ds == "#FFF";
    }
    ShortForm();
  }

  /** Only the leading digit run is read: anything after it is ignored. */
  lemma TrailingIgnored(digits: string, tail: string)
    requires AllHexDigits(digits)
    requires |tail| > 0 ==> !IsHexDigit(tail[0])
    ensures HexToRgb("#" + digits + tail) == HexToRgb("#" + digits)
  {
    var a := "#" + digits + tail;
    var b := "#" + digits;
    assert a[1..] == digits + tail;
    assert b[1..] == digits;
    RunOfDigitsThenStop(digits, tail);
    RunOfDigitsThenStop(digits, []);
    assert digits + [] == digits;
    assert (digits + tail)[..|digits|] == digits;
  }

  lemma {:induction false} RunOfDigitsThenStop(digits: string, tail: string)
    requires AllHexDigits(digits)
    requires |tail| > 0 ==> !IsHexDigit(tail[0])
    ensures HexRunLength(digits + tail) == |digits|
    decreases |digits|
  {
    if |digits| == 0 {
      assert digits + tail == tail;
    } else {
      var s := digits + tail;
      assert s[0] == digits[0];
      assert s[1..] == digits[1..] + tail;
      RunOfDigitsThenStop(digits[1..], tail);
    }
  }

  lemma ByteHexSamples()
    ensures ByteHex(0) == "00" && ByteHex(255) == "FF"
    ensures ByteHex(128) == "80" && ByteHex(64) == "40" && ByteHex(127) == "7F"
  {
    assert UpperDigit(0) == '0' && UpperDigit(15) == 'F';
    assert UpperDigit(8) == '8' && UpperDigit(4) == '4' && UpperDigit(7) == '7';
  }

  /** The unit test's printing vector: `{255, 128, 64}` prints as `#FF8040`. */
  lemma PrintSample()
    ensures RgbToHex(RGB(255, 128, 64)) == "#FF8040"
  {
    ByteHexSamples();
  }

  /** The unit test's parsing vectors: pure red, green and blue. */
  lemma PrimaryColours()
    ensures HexToRgb("#FF0000") == Ok(RGB(255, 0, 0))
    ensures HexToRgb("#00FF00") == Ok(RGB(0, 255, 0))
    ensures HexToRgb("#0000FF") == Ok(RGB(0, 0, 255))
  {
    ByteHexSamples();
    assert RgbToHex(RGB(255, 0, 0)) == "#FF0000";
    assert RgbToHex(RGB(0, 255, 0)) == "#00FF00";
    assert RgbToHex(RGB(0, 0, 255)) == "#0000FF";
    RoundTrip(RGB(255, 0, 0));
    RoundTrip(RGB(0, 255, 0));
    RoundTrip(RGB(0, 0, 255));
  }

  /** A darkened colour parses back to the clamped, truncated channels. */
  lemma DarkenParsesBack(hex: string, p: real)
    requires HexToRgb(hex).Ok?
    ensures DarkenColor(hex, p).Ok?
    ensures HexToRgb(DarkenColor(hex, p).value) == Ok(DarkenRgb(HexToRgb(hex).value, p))
  {
    var d := DarkenRgb(HexToRgb(hex).value, p);
    RoundTrip(d);
    MaskByteColor(d);
  }

  lemma ScaleDown(x: real, p: real)
    requires 0.0 <= x && 0.0 <= p <= 1.0
    ensures 0.0 <= x * (1.0 - p) <= x
  {
    assert x * (1.0 - p) == x - x * p;
    assert 0.0 <= x * p <= x * 1.0;
  }

  /** `darken_color("#FFFFFF", 0.5)` parses back to 127, 127, 127. */
  lemma DarkenWhiteByHalf()
    ensures DarkenColor("#FFFFFF", 0.5) == Ok("#7F7F7F")
    ensures HexToRgb("#7F7F7F") == Ok(RGB(127, 127, 127))
  {
    ByteHexSamples();
    assert RgbToHex(RGB(255, 255, 255)) == "#FFFFFF";
    RoundTrip(RGB(255, 255, 255));
    assert DarkenChannel(255, 0.5) == 127;
    assert RgbToHex(RGB(127, 127, 127)) == "#7F7F7F";
    RoundTrip(RGB(127, 127, 127));
  }
}
