/** The colour engine: 6-digit hex notation (section 5.2 of CSS Color Module
    Level 4), the RGB/HSL conversions of section 4.2.4 of CSS Color Module
    Level 3 computed exactly over `real`, the 11-step shade generator, the
    display formatter, the BT.601 light/dark test and the WCAG contrast ratio. */
module ColorUtils {
  import opened JsText

  /* ---------- data model ---------- */

  datatype Rgb = Rgb(r: int, g: int, b: int) {
    predicate InRange() {
      0 <= r <= 255 && 0 <= g <= 255 && 0 <= b <= 255
    }
  }

  /** HSL as stored in a palette entry: each component rounded to an integer. */
  datatype Hsl = Hsl(h: int, s: int, l: int) {
    predicate InBounds() {
      0 <= h <= 360 && 0 <= s <= 100 && 0 <= l <= 100
    }
  }

  /** An HSL target of the shade generator, before conversion to RGB. */
  datatype Target = Target(h: real, s: real, l: real)

  /** The OKLCH approximation, kept opaque: the three components as they are
      printed. */
  datatype Oklch = Oklch(l: string, c: string, h: string)

  /** One shade of a palette, every representation derived from `rgb`. */
  datatype Entry = Entry(hex: string, rgb: Rgb, hsl: Hsl, oklch: Oklch)

  /** A palette object: shade keys with their entries, in enumeration order.
      The empty sequence is the empty object `{}`. */
  type Palette = seq<(string, Entry)>

  /** `palette[key]`, `None` standing for `undefined`. */
  function Lookup(palette: Palette, key: string): Option<Entry> {
    if palette == [] then None
    else if palette[0].0 == key then Some(palette[0].1)
    else Lookup(palette[1..], key)
  }

  /** A key is found exactly when some pair carries it, and the value found
      is the entry of the first such pair. */
  lemma {:induction false} LookupSpec(palette: Palette, key: string)
    ensures Lookup(palette, key).Some? <==> exists i :: 0 <= i < |palette| && palette[i].0 == key
    ensures Lookup(palette, key).Some? ==>
      exists i :: 0 <= i < |palette| && palette[i] == (key, Lookup(palette, key).value)
        && forall j :: 0 <= j < i ==> palette[j].0 != key
  {
    if palette != [] && palette[0].0 != key {
      var rest := palette[1..];
      LookupSpec(rest, key);
      assert forall i :: 1 <= i < |palette| ==> palette[i] == rest[i - 1];
      if Lookup(palette, key).Some? {
        var i :| 0 <= i < |rest| && rest[i] == (key, Lookup(palette, key).value)
          && forall j :: 0 <= j < i ==> rest[j].0 != key;
        assert palette[i + 1] == rest[i];
      }
    }
  }

  /* ---------- JavaScript arithmetic ---------- */

  /** `Math.round(x)`. */
  function Round(x: real): int {
    (x + 0.5).Floor
  }

  lemma RoundBounds(x: real, lo: int, hi: int)
    ensures lo as real <= x <= hi as real ==> lo <= Round(x) <= hi
  {
  }

  lemma RoundMonotone(x: real, y: real)
    ensures x <= y ==> Round(x) <= Round(y)
  {
  }

  function RealMax(a: real, b: real): real {
    if a >= b then a else b
  }

  function RealMin(a: real, b: real): real {
    if a <= b then a else b
  }

  /** `Math.max(a, b, c)`. */
  function Max3(a: real, b: real, c: real): (m: real)
    ensures m >= a && m >= b && m >= c && (m == a || m == b || m == c)
  {
    RealMax(RealMax(a, b), c)
  }

  /** `Math.min(a, b, c)`. */
  function Min3(a: real, b: real, c: real): (m: real)
    ensures m <= a && m <= b && m <= c && (m == a || m == b || m == c)
  {
    RealMin(RealMin(a, b), c)
  }

  /** ToInt32: the number modulo 2^32, read as a signed 32-bit integer. */
  function ToInt32(x: int): (y: int)
    ensures -0x8000_0000 <= y < 0x8000_0000
    ensures -0x8000_0000 <= x < 0x8000_0000 ==> y == x
  {
    var m := x % 0x1_0000_0000;
    if m >= 0x8000_0000 then m - 0x1_0000_0000 else m
  }

  /** `x << k` where `scale` is 2^k: both sides go through ToInt32 and the
      product wraps around at 32 bits. */
  function ShiftLeft32(x: int, scale: int): int {
    ToInt32(ToInt32(x) * scale)
  }

  /* ---------- hex notation ---------- */

  /** The language of `/^#?([a-f\d]{2})([a-f\d]{2})([a-f\d]{2})$/i`. */
  predicate IsHexColor(s: string) {
    (|s| == 7 && s[0] == '#' && AllHex(s[1..])) || (|s| == 6 && AllHex(s))
  }

  /** The six digits of an accepted hex colour. */
  function HexDigitsOf(s: string): (d: string)
    requires IsHexColor(s)
    ensures |d| == 6 && AllHex(d)
  {
    if s[0] == '#' then s[1..] else s
  }

  /** The value of a pair of hex digits; `PairIsParseInt` shows it is what
      `parseInt(pair, 16)` returns. */
  function PairValue(s: string): (v: int)
    requires |s| == 2 && AllHex(s)
    ensures 0 <= v < 256
  {
    16 * HexVal(s[0]) + HexVal(s[1])
  }

  lemma PairIsParseInt(s: string)
    requires |s| == 2 && AllHex(s)
    ensures ParseIntHex(s) == Some(PairValue(s))
  {
    ParseHexPair(s);
  }

  /** `hexToRgb`: three `parseInt(pair, 16)` values, or `None` for `null`. */
  function HexToRgb(hex: string): (c: Option<Rgb>)
    ensures c.Some? <==> IsHexColor(hex)
    ensures c.Some? ==> c.value.InRange()
    ensures c.Some? ==> var d := HexDigitsOf(hex);
      c.value == Rgb(PairValue(d[0..2]), PairValue(d[2..4]), PairValue(d[4..6]))
  {
    var digits := if |hex| > 0 && hex[0] == '#' then hex[1..] else hex;
    if |digits| == 6 && AllHex(digits) then
      Some(Rgb(PairValue(digits[0..2]), PairValue(digits[2..4]), PairValue(digits[4..6])))
    else
      None
  }

  /** `rgbToHex`: `"#" + ((1 << 24) + (r << 16) + (g << 8) + b).toString(16).slice(1)`. */
  function RgbToHex(c: Rgb): string {
    var packed := 0x100_0000 + ShiftLeft32(c.r, 0x1_0000) + ShiftLeft32(c.g, 0x100) + c.b;
    "#" + ToRadixString(packed, 16)[1..]
  }

  /** Appending three bytes to `m` appends their padded pairs to its digits. */
  lemma DigitsAppendChannels(n: nat, m: nat, r: nat, g: nat, b: nat)
    requires m >= 1 && r < 256 && g < 256 && b < 256
    requires n == ((m * 256 + r) * 256 + g) * 256 + b
    ensures Digits(n, 16) == Digits(m, 16) + ByteHex(r) + ByteHex(g) + ByteHex(b)
  {
    var m1 := m * 256 + r;
    var m2 := m1 * 256 + g;
    DigitsAppendByte(m1, m, r);
    DigitsAppendByte(m2, m1, g);
    DigitsAppendByte(n, m2, b);
  }

  /** The 25-bit value `(1 << 24) + (r << 16) + (g << 8) + b` prints as a
      `1` followed by the channels' padded pairs. */
  lemma PackedDigits(n: nat, r: nat, g: nat, b: nat)
    requires r < 256 && g < 256 && b < 256
    requires n == 0x100_0000 + r * 0x1_0000 + g * 0x100 + b
    ensures Digits(n, 16) == "1" + ByteHex(r) + ByteHex(g) + ByteHex(b)
  {
    DigitsAppendChannels(n, 1, r, g, b);
    assert Digits(1, 16) == "1";
  }

  /** For channels in [0,255] the output is `#` followed by the channels as
      padded lower-case hex pairs; the leading `1` is what `slice(1)` drops. */
  lemma RgbToHexFormat(c: Rgb)
    requires c.InRange()
    ensures RgbToHex(c) == "#" + ByteHex(c.r) + ByteHex(c.g) + ByteHex(c.b)
  {
    ChannelShifts(c);
    var n := 0x100_0000 + ShiftLeft32(c.r, 0x1_0000) + ShiftLeft32(c.g, 0x100) + c.b;
    PackedPrinted(n, c.r, c.g, c.b);
  }

  /** In range, neither shift wraps around. */
  lemma ChannelShifts(c: Rgb)
    requires c.InRange()
    ensures ShiftLeft32(c.r, 0x1_0000) == c.r * 0x1_0000
    ensures ShiftLeft32(c.g, 0x100) == c.g * 0x100
  {
  }

  /** The packed number in base 16 without its leading `1`. */
  lemma PackedPrinted(n: nat, r: nat, g: nat, b: nat)
    requires r < 256 && g < 256 && b < 256
    requires n == 0x100_0000 + r * 0x1_0000 + g * 0x100 + b
    ensures ToRadixString(n, 16)[1..] == ByteHex(r) + ByteHex(g) + ByteHex(b)
  {
    PackedDigits(n, r, g, b);
    var tail := ByteHex(r) + ByteHex(g) + ByteHex(b);
    assert ("1" + tail)[1..] == tail;
  }

  /** The output is always seven characters: `#` and six lower-case digits. */
  lemma RgbToHexShape(c: Rgb)
    requires c.InRange()
    ensures |RgbToHex(c)| == 7 && RgbToHex(c)[0] == '#'
    ensures forall i :: 1 <= i < 7 ==> IsLowerHexDigit(RgbToHex(c)[i])
  {
    RgbToHexFormat(c);
    ByteHexValue(c.r);
    ByteHexValue(c.g);
    ByteHexValue(c.b);
    var h := RgbToHex(c);
    assert h[1] == ByteHex(c.r)[0] && h[2] == ByteHex(c.r)[1];
    assert h[3] == ByteHex(c.g)[0] && h[4] == ByteHex(c.g)[1];
    assert h[5] == ByteHex(c.b)[0] && h[6] == ByteHex(c.b)[1];
  }

  /** `#` and three digit pairs parse to the pairs' values. */
  lemma HexOfPairs(dr: string, dg: string, db: string)
    requires |dr| == 2 && |dg| == 2 && |db| == 2 && AllHex(dr) && AllHex(dg) && AllHex(db)
    ensures HexToRgb("#" + dr + dg + db) == Some(Rgb(PairValue(dr), PairValue(dg), PairValue(db)))
  {
    var hex := "#" + dr + dg + db;
    assert hex[1..] == dr + dg + db;
    assert IsHexColor(hex);
    var d := HexDigitsOf(hex);
    assert d[0..2] == dr && d[2..4] == dg && d[4..6] == db;
  }

  /** Printing then parsing gives back the colour. */
  lemma HexRoundTrip(c: Rgb)
    requires c.InRange()
    ensures HexToRgb(RgbToHex(c)) == Some(c)
  {
    RgbToHexFormat(c);
    ByteHexValue(c.r);
    ByteHexValue(c.g);
    ByteHexValue(c.b);
    HexOfPairs(ByteHex(c.r), ByteHex(c.g), ByteHex(c.b));
  }

  /** Reprinting a parsed pair gives the pair in lower case. */
  lemma PairReprinted(p: string)
    requires |p| == 2 && AllHex(p)
    ensures ByteHex(PairValue(p)) == ToLower(p)
  {
    var v := PairValue(p);
    assert v / 16 == HexVal(p[0]) && v % 16 == HexVal(p[1]);
    DigitCharIsLowered(p[0]);
    DigitCharIsLowered(p[1]);
  }

  /** Parsing then printing gives the canonical form: a `#` and the six
      digits in lower case. */
  lemma HexCanonicalForm(s: string)
    requires IsHexColor(s)
    ensures RgbToHex(HexToRgb(s).value) == "#" + ToLower(HexDigitsOf(s))
  {
    var c := HexToRgb(s).value;
    var d := HexDigitsOf(s);
    RgbToHexFormat(c);
    PairReprinted(d[0..2]);
    PairReprinted(d[2..4]);
    PairReprinted(d[4..6]);
    LowerOfPairs(d);
  }

  lemma LowerOfPairs(d: string)
    requires |d| == 6
    ensures ToLower(d) == ToLower(d[0..2]) + ToLower(d[2..4]) + ToLower(d[4..6])
  {
    assert d == d[0..2] + d[2..4] + d[4..6];
    ToLowerAppend(d[0..2] + d[2..4], d[4..6]);
    ToLowerAppend(d[0..2], d[2..4]);
  }

  /** A 3-digit shorthand colour is rejected. */
  lemma ShorthandRejected()
    ensures HexToRgb("#fff") == None && HexToRgb("red") == None && HexToRgb("#zzz") == None
    ensures HexToRgb("#505c47") == Some(Rgb(80, 92, 71))
  {
    assert !IsHexColor("#fff");
    assert IsHexColor("#505c47");
  }

  /* ---------- RGB to HSL ---------- */

  /** Hue sextant when red is the largest channel (`case r` of the switch). */
  function HueFromRed(r: real, g: real, b: real, d: real): real
    requires d > 0.0
  {
    (g - b) / d + (if g < b then 6.0 else 0.0)
  }

  function HueFromGreen(r: real, g: real, b: real, d: real): real
    requires d > 0.0
  {
    (b - r) / d + 2.0
  }

  function HueFromBlue(r: real, g: real, b: real, d: real): real
    requires d > 0.0
  {
    (r - g) / d + 4.0
  }

  /** The `switch (max)`: the first channel equal to the maximum wins. */
  function HueSextant(r: real, g: real, b: real, max: real, d: real): real
    requires d > 0.0
  {
    if max == r then HueFromRed(r, g, b, d)
    else if max == g then HueFromGreen(r, g, b, d)
    else HueFromBlue(r, g, b, d)
  }

  lemma RatioBounds(x: real, d: real)
    requires d > 0.0 && -d <= x <= d
    ensures -1.0 <= x / d <= 1.0
    ensures x < 0.0 ==> x / d < 0.0
    ensures x >= 0.0 ==> x / d >= 0.0
  {
    assert x / d * d == x;
  }

  lemma UnitRatio(x: real, d: real)
    requires 0.0 <= x <= d && d > 0.0
    ensures 0.0 <= x / d <= 1.0
  {
    assert x / d * d == x;
  }

  /** The sextant lies in [0,6) whichever channel is the maximum. */
  lemma HueSextantBounds(r: real, g: real, b: real, max: real, min: real)
    requires max == Max3(r, g, b) && min == Min3(r, g, b) && max > min
    ensures 0.0 <= HueSextant(r, g, b, max, max - min) < 6.0
  {
    var d := max - min;
    RatioBounds(g - b, d);
    RatioBounds(b - r, d);
    RatioBounds(r - g, d);
  }

  /** Ties for the largest channel are resolved in red, green, blue order,
      and every tied channel's formula gives the same hue. */
  lemma HueTiesAgree(r: real, g: real, b: real)
    requires Max3(r, g, b) > Min3(r, g, b)
    ensures var max, d := Max3(r, g, b), Max3(r, g, b) - Min3(r, g, b);
      && (r == max && g == max ==> HueFromRed(r, g, b, d) == HueFromGreen(r, g, b, d))
      && (r == max && b == max ==> HueFromRed(r, g, b, d) == HueFromBlue(r, g, b, d))
      && (g == max && b == max ==> HueFromGreen(r, g, b, d) == HueFromBlue(r, g, b, d))
  {
    var max, min := Max3(r, g, b), Min3(r, g, b);
    var d := max - min;
    if r == max && g == max {
      assert b == min;
      assert (g - b) / d == 1.0 && (b - r) / d == -1.0;
    }
    if r == max && b == max {
      assert g == min;
      assert (g - b) / d == -1.0 && (r - g) / d == 1.0;
    }
    if g == max && b == max {
      assert r == min;
      assert (b - r) / d == 1.0 && (r - g) / d == -1.0;
    }
  }

  /** The saturation formula of `rgbToHsl` for a chromatic colour. */
  function Saturation(max: real, min: real): (s: real)
    requires 0.0 <= min < max <= 1.0
    ensures 0.0 <= s <= 1.0
  {
    var d := max - min;
    if (max + min) / 2.0 > 0.5 then
      UnitRatio(d, 2.0 - max - min);
      d / (2.0 - max - min)
    else
      UnitRatio(d, max + min);
      d / (max + min)
  }

  /** `rgbToHsl`. The hue is in [0,360] (360 is reachable by rounding),
      saturation and lightness in [0,100]; a grey has hue and saturation 0. */
  function RgbToHsl(c: Rgb): (hsl: Hsl)
    requires c.InRange()
    ensures hsl.InBounds()
    ensures c.r == c.g == c.b ==> hsl.h == 0 && hsl.s == 0
  {
    var r, g, b := c.r as real / 255.0, c.g as real / 255.0, c.b as real / 255.0;
    var max, min := Max3(r, g, b), Min3(r, g, b);
    var l := (max + min) / 2.0;
    RoundBounds(l * 100.0, 0, 100);
    if max == min then
      Hsl(0, 0, Round(l * 100.0))
    else
      HueSextantBounds(r, g, b, max, min);
      var h := HueSextant(r, g, b, max, max - min) / 6.0;
      var s := Saturation(max, min);
      RoundBounds(h * 360.0, 0, 360);
      RoundBounds(s * 100.0, 0, 100);
      Hsl(Round(h * 360.0), Round(s * 100.0), Round(l * 100.0))
  }

  /* ---------- HSL to RGB ---------- */

  /** `t` brought into [0,1] by the two adjustments of `hue2rgb`. */
  function WrapHue(t0: real): (t: real)
    ensures -1.0 <= t0 <= 2.0 ==> 0.0 <= t <= 1.0
  {
    var t1 := if t0 < 0.0 then t0 + 1.0 else t0;
    if t1 > 1.0 then t1 - 1.0 else t1
  }

  /** The rising edge of `hue2rgb`, `p + (q - p) * 6 * t`. */
  function Rise(p: real, q: real, t: real): real {
    p + (q - p) * 6.0 * t
  }

  /** The falling edge of `hue2rgb`, `p + (q - p) * (2/3 - t) * 6`. */
  function Fall(p: real, q: real, t: real): real {
    p + (q - p) * (2.0 / 3.0 - t) * 6.0
  }

  lemma ScaleWithin(a: real, x: real)
    requires a >= 0.0 && 0.0 <= x <= 1.0
    ensures 0.0 <= a * x <= a
  {
  }

  lemma RiseBetween(p: real, q: real, t: real)
    ensures p <= q && 0.0 <= t < 1.0 / 6.0 ==> p <= Rise(p, q, t) <= q
  {
    if p <= q && 0.0 <= t < 1.0 / 6.0 {
      ScaleWithin(q - p, 6.0 * t);
    }
  }

  lemma FallBetween(p: real, q: real, t: real)
    ensures p <= q && 1.0 / 2.0 <= t < 2.0 / 3.0 ==> p <= Fall(p, q, t) <= q
  {
    if p <= q && 1.0 / 2.0 <= t < 2.0 / 3.0 {
      ScaleWithin(q - p, (2.0 / 3.0 - t) * 6.0);
    }
  }

  /** The `hue2rgb` helper: for `p <= q` and a hue offset in [-1,2] the
      value stays between `p` and `q`. */
  function Hue2Rgb(p: real, q: real, t0: real): (v: real)
    ensures p <= q && -1.0 <= t0 <= 2.0 ==> p <= v <= q
  {
    var t := WrapHue(t0);
    if t < 1.0 / 6.0 then
      RiseBetween(p, q, t);
      Rise(p, q, t)
    else if t < 1.0 / 2.0 then q
    else if t < 2.0 / 3.0 then
      FallBetween(p, q, t);
      Fall(p, q, t)
    else p
  }

  /** The `q` of `hslToRgb`, for fractions `s` and `l`. */
  function HslQ(s: real, l: real): real {
    if l < 0.5 then l * (1.0 + s) else l + s - l * s
  }

  /** The `p` of `hslToRgb`. */
  function HslP(s: real, l: real): real {
    2.0 * l - HslQ(s, l)
  }

  lemma PQBounds(s: real, l: real)
    ensures 0.0 <= s <= 1.0 && 0.0 <= l <= 1.0 ==> 0.0 <= HslP(s, l) <= l <= HslQ(s, l) <= 1.0
  {
    if 0.0 <= s <= 1.0 && 0.0 <= l < 0.5 {
      ScaleWithin(l, s);
    } else if 0.0 <= s <= 1.0 && 0.5 <= l <= 1.0 {
      ScaleWithin(1.0 - l, s);
    }
  }

  predicate TargetInBounds(h: real, s: real, l: real) {
    0.0 <= h <= 360.0 && 0.0 <= s <= 100.0 && 0.0 <= l <= 100.0
  }

  /** One output channel of `hslToRgb`. */
  function Channel(p: real, q: real, t: real): (v: int)
    ensures 0.0 <= p <= q <= 1.0 && -1.0 <= t <= 2.0 ==> Round(p * 255.0) <= v <= Round(q * 255.0)
  {
    var x := Hue2Rgb(p, q, t);
    RoundMonotone(p * 255.0, x * 255.0);
    RoundMonotone(x * 255.0, q * 255.0);
    Round(x * 255.0)
  }

  /** `hslToRgb`. A zero saturation gives a grey of `round(l * 2.55)`; for
      h in [0,360] and s, l in [0,100] every channel is in [0,255] and lies
      between the rounded `p` and `q` of the formula. */
  function HslToRgb(h: real, s: real, l: real): (c: Rgb)
    ensures s == 0.0 ==> c.r == c.g == c.b == Round(l / 100.0 * 255.0)
    ensures TargetInBounds(h, s, l) && s != 0.0 ==>
      var lo, hi := Round(HslP(s / 100.0, l / 100.0) * 255.0), Round(HslQ(s / 100.0, l / 100.0) * 255.0);
      lo <= c.r <= hi && lo <= c.g <= hi && lo <= c.b <= hi
    ensures TargetInBounds(h, s, l) ==> c.InRange()
  {
    var h', s', l' := h / 360.0, s / 100.0, l / 100.0;
    if s' == 0.0 then
      RoundBounds(l' * 255.0, 0, 255);
      Rgb(Round(l' * 255.0), Round(l' * 255.0), Round(l' * 255.0))
    else
      var q := HslQ(s', l');
      var p := 2.0 * l' - q;
      PQBounds(s', l');
      RoundBounds(p * 255.0, 0, 255);
      RoundBounds(q * 255.0, 0, 255);
      Rgb(Channel(p, q, h' + 1.0 / 3.0), Channel(p, q, h'), Channel(p, q, h' - 1.0 / 3.0))
  }

  /* ---------- shade generator ---------- */

  /** The shade keys in enumeration order: integer-like keys ascend. */
  const ShadeKeys: seq<string> :=
    ["50", "100", "200", "300", "400", "500", "600", "700", "800", "900", "950"]

  /** The per-shade HSL targets computed from the anchor colour. */
  function ShadeTargets(anchor: Hsl): (t: seq<Target>)
    ensures |t| == 11
  {
    var h, s, l := anchor.h as real, anchor.s as real, anchor.l as real;
    [ Target(h, RealMax(s * 0.4, 8.0), 96.0),
      Target(h, RealMax(s * 0.5, 10.0), 92.0),
      Target(h, RealMax(s * 0.6, 12.0), 84.0),
      Target(h, RealMax(s * 0.7, 14.0), 76.0),
      Target(h, RealMax(s * 0.85, 16.0), 64.0),
      Target(h, s, l),
      Target(h, RealMin(s * 1.1, 100.0), RealMax(l - 8.0, 12.0)),
      Target(h, RealMin(s * 1.2, 100.0), RealMax(l - 16.0, 10.0)),
      Target(h, RealMin(s * 1.3, 100.0), RealMax(l - 24.0, 8.0)),
      Target(h, RealMin(s * 1.4, 100.0), RealMax(l - 30.0, 6.0)),
      Target(h, RealMin(s * 1.5, 100.0), RealMax(l - 36.0, 4.0)) ]
  }

  /** All targets of an in-bounds anchor keep the anchor hue and have
      saturation and lightness in [0,100], so the `Math.min(…, 100)` clamps
      applied before conversion change nothing. */
  lemma ShadeTargetsInBounds(anchor: Hsl)
    requires anchor.InBounds()
    ensures forall i :: 0 <= i < 11 ==>
      ShadeTargets(anchor)[i].h == anchor.h as real &&
      TargetInBounds(ShadeTargets(anchor)[i].h, ShadeTargets(anchor)[i].s, ShadeTargets(anchor)[i].l)
  {
  }

  /** Shade 500's target is the anchor itself; 50…400 have the fixed
      lightness 96 > 92 > 84 > 76 > 64 and saturation floors 8, 10, 12, 14,
      16; 600…950 have strictly decreasing lightness. */
  lemma ShadeTargetCurve(anchor: Hsl)
    requires anchor.InBounds()
    ensures var t := ShadeTargets(anchor);
      && t[5] == Target(anchor.h as real, anchor.s as real, anchor.l as real)
      && t[0].l == 96.0 && t[1].l == 92.0 && t[2].l == 84.0 && t[3].l == 76.0 && t[4].l == 64.0
      && t[0].s >= 8.0 && t[1].s >= 10.0 && t[2].s >= 12.0 && t[3].s >= 14.0 && t[4].s >= 16.0
      && t[6].l > t[7].l > t[8].l > t[9].l > t[10].l
      && t[10].l >= 4.0
  {
  }

  /** The entry stored for one target (loop body of `generateShades`). */
  function ShadeEntry(t: Target, oklchOf: Rgb -> Oklch): (e: Entry)
    requires TargetInBounds(t.h, t.s, t.l)
    ensures Consistent(e, oklchOf)
  {
    var rgb := HslToRgb(t.h, RealMin(t.s, 100.0), RealMin(t.l, 100.0));
    Entry(RgbToHex(rgb), rgb, RgbToHsl(rgb), oklchOf(rgb))
  }

  /** Every representation in the entry is derived from its RGB value. */
  predicate Consistent(e: Entry, oklchOf: Rgb -> Oklch) {
    && e.rgb.InRange()
    && e.hex == RgbToHex(e.rgb)
    && e.hsl == RgbToHsl(e.rgb)
    && e.oklch == oklchOf(e.rgb)
  }

  /** The palette for an anchor colour. */
  function PaletteFor(anchor: Hsl, oklchOf: Rgb -> Oklch): (p: Palette)
    requires anchor.InBounds()
    ensures |p| == 11
  {
    ShadeTargetsInBounds(anchor);
    var t := ShadeTargets(anchor);
    seq(11, i requires 0 <= i < 11 => (ShadeKeys[i], ShadeEntry(t[i], oklchOf)))
  }

  /** What `generateShades(hexColor)` returns. */
  function Generated(hexColor: string, oklchOf: Rgb -> Oklch): (p: Palette)
    ensures p == [] <==> HexToRgb(hexColor).None?
    ensures HexToRgb(hexColor).Some? ==> |p| == 11
  {
    match HexToRgb(hexColor)
    case None => []
    case Some(c) => PaletteFor(RgbToHsl(c), oklchOf)
  }

  /** `generateShades`: fills the result one shade key at a time. */
  method GenerateShades(hexColor: string, oklchOf: Rgb -> Oklch) returns (result: Palette)
    ensures result == Generated(hexColor, oklchOf)
  {
    var rgb := HexToRgb(hexColor);
    if rgb.None? {
      return [];
    }
    var hsl := RgbToHsl(rgb.value);
    var shades := ShadeTargets(hsl);
    ShadeTargetsInBounds(hsl);
    result := [];
    for i := 0 to 11
      invariant result == PaletteFor(hsl, oklchOf)[..i]
    {
      var t := shades[i];
      var adjustedRgb := HslToRgb(t.h, RealMin(t.s, 100.0), RealMin(t.l, 100.0));
      var hex := RgbToHex(adjustedRgb);
      var hslValues := RgbToHsl(adjustedRgb);
      var oklch := oklchOf(adjustedRgb);
      var entry := Entry(hex, adjustedRgb, hslValues, oklch);
      assert entry == ShadeEntry(t, oklchOf);
      PaletteStep(hsl, oklchOf, i, result);
      result := result + [(ShadeKeys[i], entry)];
    }
  }

  /** Appending shade `i` to the first `i` shades gives the first `i + 1`. */
  lemma PaletteStep(anchor: Hsl, oklchOf: Rgb -> Oklch, i: nat, prefix: Palette)
    requires anchor.InBounds() && i < 11 && prefix == PaletteFor(anchor, oklchOf)[..i]
    requires var t := ShadeTargets(anchor)[i]; TargetInBounds(t.h, t.s, t.l)
    ensures prefix + [(ShadeKeys[i], ShadeEntry(ShadeTargets(anchor)[i], oklchOf))]
      == PaletteFor(anchor, oklchOf)[..i + 1]
  {
    PaletteAt(anchor, oklchOf, i);
    TakeSnoc(PaletteFor(anchor, oklchOf), i, (ShadeKeys[i], ShadeEntry(ShadeTargets(anchor)[i], oklchOf)));
  }

  /** Shade `i` of the palette is keyed `ShadeKeys[i]` and built from target `i`. */
  lemma PaletteAt(anchor: Hsl, oklchOf: Rgb -> Oklch, i: nat)
    requires anchor.InBounds() && i < 11
    requires var t := ShadeTargets(anchor)[i]; TargetInBounds(t.h, t.s, t.l)
    ensures PaletteFor(anchor, oklchOf)[i] == (ShadeKeys[i], ShadeEntry(ShadeTargets(anchor)[i], oklchOf))
  {
  }

  /** Unparsable input gives the empty palette; otherwise the palette has
      exactly the 11 keys 50…950 in order, every entry is internally
      consistent, its hex parses back to its RGB value, and its RGB value is
      the conversion of the shade's target. */
  lemma GeneratedStructure(hexColor: string, oklchOf: Rgb -> Oklch)
    ensures Generated(hexColor, oklchOf) == [] <==> HexToRgb(hexColor).None?
    ensures HexToRgb(hexColor).Some? ==>
      var p, t := Generated(hexColor, oklchOf), ShadeTargets(RgbToHsl(HexToRgb(hexColor).value));
      && |p| == 11
      && (forall i :: 0 <= i < 11 ==>
            && p[i].0 == ShadeKeys[i]
            && Consistent(p[i].1, oklchOf)
            && p[i].1.rgb == HslToRgb(t[i].h, t[i].s, t[i].l)
            && p[i].1.hsl.InBounds()
            && HexToRgb(p[i].1.hex) == Some(p[i].1.rgb))
  {
    if HexToRgb(hexColor).Some? {
      var anchor := RgbToHsl(HexToRgb(hexColor).value);
      ShadeTargetsInBounds(anchor);
      var p := Generated(hexColor, oklchOf);
      forall i | 0 <= i < 11 ensures HexToRgb(p[i].1.hex) == Some(p[i].1.rgb) {
        HexRoundTrip(p[i].1.rgb);
      }
    }
  }

  /** Every shade key finds its own entry in a generated palette. */
  lemma GeneratedLookups(hexColor: string, oklchOf: Rgb -> Oklch, p: Palette)
    requires HexToRgb(hexColor).Some? && p == Generated(hexColor, oklchOf)
    ensures |p| == 11 && forall j :: 0 <= j < 11 ==> Lookup(p, ShadeKeys[j]) == Some(p[j].1)
  {
    GeneratedKeys(hexColor, oklchOf);
    forall j | 0 <= j < 11 ensures Lookup(p, ShadeKeys[j]) == Some(p[j].1) {
      GeneratedLookup(hexColor, oklchOf, j);
    }
  }

  /** Looking a shade key up in a generated palette finds the entry at that
      key's position. */
  lemma GeneratedLookup(hexColor: string, oklchOf: Rgb -> Oklch, i: nat)
    requires HexToRgb(hexColor).Some? && i < 11
    ensures Lookup(Generated(hexColor, oklchOf), ShadeKeys[i]) == Some(Generated(hexColor, oklchOf)[i].1)
  {
    var p := Generated(hexColor, oklchOf);
    GeneratedKeys(hexColor, oklchOf);
    forall j | 0 <= j < i ensures p[j].0 != ShadeKeys[i] {
      ShadeKeysDistinct(i, j);
    }
    LookupFirst(p, ShadeKeys[i], i);
  }

  /** A parsed colour's palette carries the shade keys in order. */
  lemma GeneratedKeys(hexColor: string, oklchOf: Rgb -> Oklch)
    requires HexToRgb(hexColor).Some?
    ensures |Generated(hexColor, oklchOf)| == 11
    ensures forall i :: 0 <= i < 11 ==> Generated(hexColor, oklchOf)[i].0 == ShadeKeys[i]
  {
  }

  lemma ShadeKeysDistinct(i: nat, j: nat)
    requires i < 11 && j < 11 && i != j
    ensures ShadeKeys[i] != ShadeKeys[j]
  {
  }

  lemma {:induction false} LookupFirst(p: Palette, key: string, i: nat)
    requires i < |p| && p[i].0 == key
    requires forall j :: 0 <= j < i ==> p[j].0 != key
    ensures Lookup(p, key) == Some(p[i].1)
  {
    if i > 0 {
      LookupFirst(p[1..], key, i - 1);
    }
  }

  /* ---------- shade 500 is not always the input ---------- */

  /** Shade 500 is the anchor — the input rounded to integer HSL —
      converted back to RGB. */
  lemma Shade500Rgb(hexColor: string, oklchOf: Rgb -> Oklch)
    requires HexToRgb(hexColor).Some?
    ensures var a := RgbToHsl(HexToRgb(hexColor).value);
      var e := Generated(hexColor, oklchOf)[5].1;
      e.rgb == HslToRgb(a.h as real, a.s as real, a.l as real) && e.hex == RgbToHex(e.rgb)
  {
    var a := RgbToHsl(HexToRgb(hexColor).value);
    ShadeTargetCurve(a);
  }

  /** `#505c47` comes back unchanged at shade 500. */
  lemma Shade500Keeps505c47(oklchOf: Rgb -> Oklch)
    ensures Generated("#505c47", oklchOf)[5].1.rgb == Rgb(80, 92, 71)
    ensures Generated("#505c47", oklchOf)[5].1.hex == "#505c47"
  {
    assert IsHexColor("#505c47");
    assert HexToRgb("#505c47") == Some(Rgb(80, 92, 71));
    Shade500Rgb("#505c47", oklchOf);
    Convert505c47();
    Back505c47();
    Printed505c47();
  }

  lemma Convert505c47()
    ensures RgbToHsl(Rgb(80, 92, 71)) == Hsl(94, 13, 32)
  {
  }

  lemma Back505c47()
    ensures HslToRgb(94.0, 13.0, 32.0) == Rgb(80, 92, 71)
  {
  }

  lemma Printed505c47()
    ensures RgbToHex(Rgb(80, 92, 71)) == "#505c47"
  {
    RgbToHexFormat(Rgb(80, 92, 71));
    assert ByteHex(80) == "50" && ByteHex(92) == "5c" && ByteHex(71) == "47";
  }

  /** `#3b82f6` comes back as `#3c83f6`: the anchor is rounded to integer
      HSL degrees and percentages before it is converted back. */
  lemma Shade500Moves3b82f6(oklchOf: Rgb -> Oklch)
    ensures Generated("#3b82f6", oklchOf)[5].1.rgb == Rgb(60, 131, 246)
  {
    assert IsHexColor("#3b82f6");
    assert HexToRgb("#3b82f6") == Some(Rgb(59, 130, 246));
    Shade500Rgb("#3b82f6", oklchOf);
    Convert3b82f6();
    Back3b82f6();
  }

  lemma Convert3b82f6()
    ensures RgbToHsl(Rgb(59, 130, 246)) == Hsl(217, 91, 60)
  {
  }

  lemma Back3b82f6()
    ensures HslToRgb(217.0, 91.0, 60.0) == Rgb(60, 131, 246)
  {
  }

  /** `#ef4444` comes back as `#ef4343`. */
  lemma Shade500Moves_ef4444(oklchOf: Rgb -> Oklch)
    ensures Generated("#ef4444", oklchOf)[5].1.rgb == Rgb(239, 67, 67)
  {
    assert IsHexColor("#ef4444");
    assert HexToRgb("#ef4444") == Some(Rgb(239, 68, 68));
    Shade500Rgb("#ef4444", oklchOf);
    ConvertEf4444();
    BackEf4444();
  }

  lemma ConvertEf4444()
    ensures RgbToHsl(Rgb(239, 68, 68)) == Hsl(0, 84, 60)
  {
  }

  lemma BackEf4444()
    ensures HslToRgb(0.0, 84.0, 60.0) == Rgb(239, 67, 67)
  {
  }

  /* ---------- display formatting ---------- */

  datatype Formatted = Formatted(hex: string, rgb: string, hsl: string, oklch: string)

  /** A CSS functional notation `name(args)`: the name, an opening
      parenthesis, the arguments, and a closing parenthesis. */
  function CssFunction(name: string, args: string): (t: string)
    ensures |t| == |name| + |args| + 2
    ensures t[..|name| + 1] == name + "(" && t[|t| - 1] == ')'
    ensures t[|name| + 1..|t| - 1] == args
  {
    var open := name + "(";
    assert (open + args + ")")[..|open|] == open;
    assert (open + args + ")")[|open|..|open| + |args|] == args;
    open + args + ")"
  }

  /** `formatColorValues`: the upper-cased hex, and RGB, HSL and OKLCH in CSS
      functional notation. */
  function FormatColorValues(e: Entry): Formatted {
    Formatted(
      ToUpper(e.hex),
      CssFunction("rgb", Decimal(e.rgb.r) + ", " + Decimal(e.rgb.g) + ", " + Decimal(e.rgb.b)),
      CssFunction("hsl", Decimal(e.hsl.h) + ", " + Decimal(e.hsl.s) + "%, " + Decimal(e.hsl.l) + "%"),
      CssFunction("oklch", e.oklch.l + " " + e.oklch.c + " " + e.oklch.h))
  }

  /** The displayed hex of an entry whose hex is printed from its RGB value is
      `#` and six upper-case hex digits, and it parses back to the entry's
      RGB value. */
  lemma FormattedHexParses(e: Entry)
    requires e.rgb.InRange() && e.hex == RgbToHex(e.rgb)
    ensures var f := FormatColorValues(e).hex;
      && |f| == 7 && f[0] == '#'
      && (forall i :: 1 <= i < 7 ==> IsUpperHexDigit(f[i]))
      && HexToRgb(f) == Some(e.rgb)
  {
    UpperHexParses(e.rgb);
  }

  /** `toUpperCase` of a printed colour: `#`, six upper-case digits, and
      the same colour when parsed. */
  lemma UpperHexParses(c: Rgb)
    requires c.InRange()
    ensures var f := ToUpper(RgbToHex(c));
      && |f| == 7 && f[0] == '#'
      && (forall i :: 1 <= i < 7 ==> IsUpperHexDigit(f[i]))
      && HexToRgb(f) == Some(c)
  {
    var ur, ug, ub := ToUpper(ByteHex(c.r)), ToUpper(ByteHex(c.g)), ToUpper(ByteHex(c.b));
    UpperRgbToHex(c);
    UpperPairsPrinted(c, ur, ug, ub);
    UpperPairsValue(c, ur, ug, ub);
  }

  /** The upper-cased pairs after `#` make seven characters, six of them upper-case digits. */
  lemma UpperPairsPrinted(c: Rgb, ur: string, ug: string, ub: string)
    requires c.InRange()
    requires ur == ToUpper(ByteHex(c.r)) && ug == ToUpper(ByteHex(c.g)) && ub == ToUpper(ByteHex(c.b))
    ensures var f := "#" + ur + ug + ub;
      |f| == 7 && f[0] == '#' && forall i :: 1 <= i < 7 ==> IsUpperHexDigit(f[i])
  {
    UpperByte(c.r);
    UpperByte(c.g);
    UpperByte(c.b);
    UpperPairsShape(ur, ug, ub);
  }

  /** An upper-cased printed byte is two upper-case digits that read back as the byte. */
  lemma UpperByte(v: nat)
    requires v < 256
    ensures |ToUpper(ByteHex(v))| == 2 && AllHex(ToUpper(ByteHex(v)))
    ensures IsUpperHexDigit(ToUpper(ByteHex(v))[0]) && IsUpperHexDigit(ToUpper(ByteHex(v))[1])
    ensures PairValue(ToUpper(ByteHex(v))) == v
  {
    ByteHexValue(v);
    UpperPair(ByteHex(v));
  }

  lemma UpperPairsValue(c: Rgb, ur: string, ug: string, ub: string)
    requires c.InRange()
    requires ur == ToUpper(ByteHex(c.r)) && ug == ToUpper(ByteHex(c.g)) && ub == ToUpper(ByteHex(c.b))
    ensures HexToRgb("#" + ur + ug + ub) == Some(c)
  {
    UpperByte(c.r);
    UpperByte(c.g);
    UpperByte(c.b);
    HexOfPairs(ur, ug, ub);
  }

  lemma UpperPairsShape(ur: string, ug: string, ub: string)
    requires |ur| == 2 && |ug| == 2 && |ub| == 2
    requires IsUpperHexDigit(ur[0]) && IsUpperHexDigit(ur[1]) && IsUpperHexDigit(ug[0])
    requires IsUpperHexDigit(ug[1]) && IsUpperHexDigit(ub[0]) && IsUpperHexDigit(ub[1])
    ensures var f := "#" + ur + ug + ub;
      |f| == 7 && f[0] == '#' && forall i :: 1 <= i < 7 ==> IsUpperHexDigit(f[i])
  {
    var f := "#" + ur + ug + ub;
    assert f[1] == ur[0] && f[2] == ur[1] && f[3] == ug[0] && f[4] == ug[1] && f[5] == ub[0] && f[6] == ub[1];
  }

  /** Upper-casing the printed hex upper-cases each pair. */
  lemma UpperRgbToHex(c: Rgb)
    requires c.InRange()
    ensures ToUpper(RgbToHex(c)) == "#" + ToUpper(ByteHex(c.r)) + ToUpper(ByteHex(c.g)) + ToUpper(ByteHex(c.b))
  {
    RgbToHexFormat(c);
    ToUpperAppend("#" + ByteHex(c.r) + ByteHex(c.g), ByteHex(c.b));
    ToUpperAppend("#" + ByteHex(c.r), ByteHex(c.g));
    ToUpperAppend("#", ByteHex(c.r));
  }

  /** An upper-cased printed pair is made of upper-case digits and has the
      same value. */
  lemma UpperPair(p: string)
    requires |p| == 2 && AllHex(p)
    ensures |ToUpper(p)| == 2 && AllHex(ToUpper(p))
    ensures IsUpperHexDigit(ToUpper(p)[0]) && IsUpperHexDigit(ToUpper(p)[1])
    ensures PairValue(ToUpper(p)) == PairValue(p)
  {
    UpperDigit(p[0]);
    UpperDigit(p[1]);
  }

  /* ---------- light / dark ---------- */

  /** `isLightColor`: BT.601 brightness strictly above 128. */
  function IsLightColor(hex: string): (light: bool)
    ensures light <==> (HexToRgb(hex).Some? &&
      299 * HexToRgb(hex).value.r + 587 * HexToRgb(hex).value.g + 114 * HexToRgb(hex).value.b > 128000)
  {
    match HexToRgb(hex)
    case None => false
    case Some(c) =>
      var brightness := (c.r * 299 + c.g * 587 + c.b * 114) as real / 1000.0;
      brightness > 128.0
  }

  /** Mid grey is not light because the test is strict; white is light. */
  lemma GreyIsDark()
    ensures !IsLightColor("#808080") && IsLightColor("#ffffff") && !IsLightColor("#fff")
  {
    assert IsHexColor("#808080") && HexToRgb("#808080") == Some(Rgb(128, 128, 128));
    assert IsHexColor("#ffffff") && HexToRgb("#ffffff") == Some(Rgb(255, 255, 255));
    ShorthandRejected();
  }

  /* ---------- contrast ratio ---------- */

  /** `Math.pow(x, 2.4)` is only known to map [0,1] into [0,1]. */
  ghost predicate PowMapsUnit(pow24: real -> real) {
    forall x: real :: 0.0 <= x <= 1.0 ==> 0.0 <= pow24(x) <= 1.0
  }

  /** The sRGB linearisation of one 0–255 channel. */
  function Linearize(v: int, pow24: real -> real): (y: real)
    requires 0 <= v <= 255 && PowMapsUnit(pow24)
    ensures 0.0 <= y <= 1.0
  {
    var c := v as real / 255.0;
    if c <= 0.03928 then c / 12.92
    else
      UnitRatio(c + 0.055, 1.055);
      pow24((c + 0.055) / 1.055)
  }

  /** WCAG relative luminance. */
  function Luminance(c: Rgb, pow24: real -> real): (y: real)
    requires c.InRange() && PowMapsUnit(pow24)
    ensures 0.0 <= y <= 1.0
  {
    0.2126 * Linearize(c.r, pow24) + 0.7152 * Linearize(c.g, pow24) + 0.0722 * Linearize(c.b, pow24)
  }

  /** `getContrastRatio`: 1 when either colour fails to parse, otherwise
      `(lighter + 0.05) / (darker + 0.05)`, which lies in [1,21]. */
  function ContrastRatio(color1: string, color2: string, pow24: real -> real): (ratio: real)
    requires PowMapsUnit(pow24)
    ensures HexToRgb(color1).None? || HexToRgb(color2).None? ==> ratio == 1.0
    ensures 1.0 <= ratio <= 21.0
  {
    match (HexToRgb(color1), HexToRgb(color2))
    case (Some(rgb1), Some(rgb2)) =>
      var lum1, lum2 := Luminance(rgb1, pow24), Luminance(rgb2, pow24);
      var brightest, darkest := RealMax(lum1, lum2), RealMin(lum1, lum2);
      ContrastBounds(brightest, darkest);
      (brightest + 0.05) / (darkest + 0.05)
    case _ => 1.0
  }

  lemma ContrastBounds(hi: real, lo: real)
    requires 0.0 <= lo <= hi <= 1.0
    ensures 1.0 <= (hi + 0.05) / (lo + 0.05) <= 21.0
  {
    var x := (hi + 0.05) / (lo + 0.05);
    assert x * (lo + 0.05) == hi + 0.05;
  }

  /** The ratio does not depend on the order of its arguments. */
  lemma ContrastSymmetric(color1: string, color2: string, pow24: real -> real)
    requires PowMapsUnit(pow24)
    ensures ContrastRatio(color1, color2, pow24) == ContrastRatio(color2, color1, pow24)
  {
  }

  /* ---------- the shades present in a palette ---------- */

  /** `keys.filter(shade => palette[shade])`, each kept key with its entry. */
  function Present(p: Palette, keys: seq<string>): seq<(string, Entry)>
    decreases |keys|
  {
    if keys == [] then []
    else
      var front := Present(p, keys[..|keys| - 1]);
      var k := keys[|keys| - 1];
      match Lookup(p, k)
      case Some(e) => front + [(k, e)]
      case None => front
  }

  /** The kept shades are exactly the keys the palette holds, in the order of
      `keys`, each with the entry `palette[shade]`. */
  lemma {:induction false} PresentSpec(p: Palette, keys: seq<string>)
    ensures forall k :: k in Keys(Present(p, keys)) <==> k in keys && Lookup(p, k).Some?
    ensures forall j :: 0 <= j < |Present(p, keys)| ==>
      Lookup(p, Present(p, keys)[j].0) == Some(Present(p, keys)[j].1)
    ensures IsSubsequence(Keys(Present(p, keys)), keys)
    decreases |keys|
  {
    if keys != [] {
      var front := keys[..|keys| - 1];
      var k := keys[|keys| - 1];
      PresentSpec(p, front);
      var r := Present(p, front);
      assert keys == front + [k];
      if Lookup(p, k).Some? {
        var r' := r + [(k, Lookup(p, k).value)];
        assert Keys(r') == Keys(r) + [k];
        assert Keys(r')[..|Keys(r')| - 1] == Keys(r);
        assert forall j :: 0 <= j < |r| ==> r'[j] == r[j];
      } else {
        SubsequenceExtend(Keys(r), front, k);
      }
    }
  }

  /** When the first `n` keys are found at the first `n` positions, the
      filter keeps all of them, each with that position's entry. */
  lemma {:induction false} PresentPrefix(p: Palette, keys: seq<string>, n: nat)
    requires n <= |keys| && n <= |p|
    requires forall j :: 0 <= j < n ==> Lookup(p, keys[j]) == Some(p[j].1)
    ensures |Present(p, keys[..n])| == n
    ensures forall j :: 0 <= j < n ==> Present(p, keys[..n])[j] == (keys[j], p[j].1)
    decreases n
  {
    if n > 0 {
      PresentPrefix(p, keys, n - 1);
      assert keys[..n][..n - 1] == keys[..n - 1];
      assert keys[..n][n - 1] == keys[n - 1];
    }
  }

  /** A palette holding the shade keys in order exports every shade, in
      the order 50…950. */
  lemma AllShadesPresent(p: Palette)
    requires |p| == 11 && forall j :: 0 <= j < 11 ==> Lookup(p, ShadeKeys[j]) == Some(p[j].1)
    ensures |Present(p, ShadeKeys)| == 11
    ensures forall j :: 0 <= j < 11 ==> Present(p, ShadeKeys)[j] == (ShadeKeys[j], p[j].1)
  {
    PresentPrefix(p, ShadeKeys, 11);
    assert ShadeKeys[..11] == ShadeKeys;
  }

  /** A generated palette exports every shade, in the order 50…950. */
  lemma GeneratedAllPresent(hexColor: string, oklchOf: Rgb -> Oklch, p: Palette)
    requires HexToRgb(hexColor).Some? && p == Generated(hexColor, oklchOf)
    ensures |Present(p, ShadeKeys)| == 11
    ensures forall j :: 0 <= j < 11 ==> Present(p, ShadeKeys)[j] == (ShadeKeys[j], p[j].1)
  {
    GeneratedLookups(hexColor, oklchOf, p);
    AllShadesPresent(p);
  }
}
