/** The palette strip: one tile per present shade, showing the shade's value
    in the selected display format. */
module ColorPalette {
  import opened JsText
  import opened ColorUtils

  /** `getColorValue`: the display string of an entry for a format name;
      an unknown format shows the hex value. */
  function ColorValue(e: Entry, format: string): string {
    var formatted := FormatColorValues(e);
    if format == "HEX" then formatted.hex
    else if format == "RGB" then formatted.rgb
    else if format == "HSL" then formatted.hsl
    else if format == "OKLCH" then formatted.oklch
    else formatted.hex
  }

  /** Every format other than RGB, HSL and OKLCH shows the upper-cased hex,
      which still parses back to the entry's colour. */
  lemma ColorValueHex(e: Entry, format: string)
    requires format != "RGB" && format != "HSL" && format != "OKLCH"
    requires e.rgb.InRange() && e.hex == RgbToHex(e.rgb)
    ensures ColorValue(e, format) == FormatColorValues(e).hex
    ensures HexToRgb(ColorValue(e, format)) == Some(e.rgb)
    ensures |ColorValue(e, format)| == 7 && ColorValue(e, format)[0] == '#'
    ensures forall i :: 1 <= i < 7 ==> IsUpperHexDigit(ColorValue(e, format)[i])
  {
    FormattedHexParses(e);
  }

  /** RGB, HSL and OKLCH show the entry's own channels in CSS functional
      notation: inside the parentheses, RGB and HSL list decimal integers
      separated by `, `, HSL with `%` after saturation and lightness, and
      OKLCH lists its three printed components separated by spaces. */
  lemma ColorValueOthers(e: Entry)
    ensures var t := ColorValue(e, "RGB");
      t[..4] == "rgb(" && t[|t| - 1] == ')'
      && t[4..|t| - 1] == Decimal(e.rgb.r) + ", " + Decimal(e.rgb.g) + ", " + Decimal(e.rgb.b)
    ensures var t := ColorValue(e, "HSL");
      t[..4] == "hsl(" && t[|t| - 1] == ')'
      && t[4..|t| - 1] == Decimal(e.hsl.h) + ", " + Decimal(e.hsl.s) + "%, " + Decimal(e.hsl.l) + "%"
    ensures var t := ColorValue(e, "OKLCH");
      t[..6] == "oklch(" && t[|t| - 1] == ')'
      && t[6..|t| - 1] == e.oklch.l + " " + e.oklch.c + " " + e.oklch.h
  {
    ColorValueFields(e);
  }

  /** The four display formats show four different texts, already told apart by
      their first character: `#`, `r`, `h` and `o`. */
  lemma FormatsDistinct(e: Entry)
    requires e.rgb.InRange() && e.hex == RgbToHex(e.rgb)
    ensures ColorValue(e, "HEX")[0] == '#' && ColorValue(e, "RGB")[0] == 'r'
    ensures ColorValue(e, "HSL")[0] == 'h' && ColorValue(e, "OKLCH")[0] == 'o'
    ensures ColorValue(e, "HEX") != ColorValue(e, "RGB") && ColorValue(e, "HEX") != ColorValue(e, "HSL")
    ensures ColorValue(e, "HEX") != ColorValue(e, "OKLCH") && ColorValue(e, "RGB") != ColorValue(e, "HSL")
    ensures ColorValue(e, "RGB") != ColorValue(e, "OKLCH") && ColorValue(e, "HSL") != ColorValue(e, "OKLCH")
  {
    ColorValueFields(e);
    FormattedHexParses(e);
    var f := FormatColorValues(e);
    assert f.rgb[..4][0] == 'r' && f.hsl[..4][0] == 'h' && f.oklch[..6][0] == 'o';
  }

  /** Each format name picks its own field of `formatColorValues`. */
  lemma ColorValueFields(e: Entry)
    ensures ColorValue(e, "HEX") == FormatColorValues(e).hex
    ensures ColorValue(e, "RGB") == FormatColorValues(e).rgb
    ensures ColorValue(e, "HSL") == FormatColorValues(e).hsl
    ensures ColorValue(e, "OKLCH") == FormatColorValues(e).oklch
  {
  }

  /** What one tile shows: its shade label, the value copied on click, the
      text colour (black or white), the lock of the base colour, the
      background and the upper-cased hex caption. */
  datatype Tile = Tile(shade: string, value: string, blackText: bool, isBase: bool,
                       background: string, caption: string)

  function TileFor(shade: string, e: Entry, format: string): Tile {
    Tile(shade, ColorValue(e, format), IsLightColor(e.hex), shade == "500", e.hex, ToUpper(e.hex))
  }

  /** `shadeOrder.map(…)`, a missing shade rendering nothing. */
  function Tiles(p: Palette, format: string): (ts: seq<Tile>)
    ensures |ts| == |Present(p, ShadeKeys)|
  {
    TilesOf(Present(p, ShadeKeys), format)
  }

  /** The tiles of the shades that survive the filter. */
  function TilesOf(es: seq<(string, Entry)>, format: string): (ts: seq<Tile>)
    ensures |ts| == |es|
  {
    seq(|es|, i requires 0 <= i < |es| => TileFor(es[i].0, es[i].1, format))
  }

  /** The shades of the tiles, in order. */
  function TileShades(ts: seq<Tile>): (ks: seq<string>)
    ensures |ks| == |ts|
  {
    seq(|ts|, i requires 0 <= i < |ts| => ts[i].shade)
  }

  /** A tile appears exactly for each shade the palette holds, in the order
      50…950, and shows that shade's entry. */
  lemma TilesFollowShadeOrder(p: Palette, format: string)
    ensures forall k :: k in TileShades(Tiles(p, format)) <==> k in ShadeKeys && Lookup(p, k).Some?
    ensures IsSubsequence(TileShades(Tiles(p, format)), ShadeKeys)
    ensures forall i :: 0 <= i < |Tiles(p, format)| ==>
      Lookup(p, Tiles(p, format)[i].shade) == Some(Present(p, ShadeKeys)[i].1)
  {
    var es := Present(p, ShadeKeys);
    PresentSpec(p, ShadeKeys);
    assert TileShades(Tiles(p, format)) == Keys(es);
  }

  /** Tile text is black exactly on light colours, by the luma rule. */
  lemma TileTextColour(shade: string, e: Entry, format: string)
    ensures TileFor(shade, e, format).blackText <==>
      HexToRgb(e.hex).Some? &&
      299 * HexToRgb(e.hex).value.r + 587 * HexToRgb(e.hex).value.g + 114 * HexToRgb(e.hex).value.b > 128000
  {
  }

  /** At most one tile carries the lock, and it is the '500' tile. */
  lemma OnlyBaseLocked(p: Palette, format: string)
    ensures forall i :: 0 <= i < |Tiles(p, format)| ==>
      (Tiles(p, format)[i].isBase <==> Tiles(p, format)[i].shade == "500")
    ensures forall i, j :: 0 <= i < j < |Tiles(p, format)| ==>
      !(Tiles(p, format)[i].isBase && Tiles(p, format)[j].isBase)
  {
    var ts := Tiles(p, format);
    ShadeKeysAreDistinct();
    PresentDistinct(p, ShadeKeys);
    forall i, j | 0 <= i < j < |ts| ensures !(ts[i].isBase && ts[j].isBase) {
      assert ts[i].shade == Keys(Present(p, ShadeKeys))[i];
      assert ts[j].shade == Keys(Present(p, ShadeKeys))[j];
    }
  }

  /** The filter keeps each of a list of distinct keys at most once. */
  lemma {:induction false} PresentDistinct(p: Palette, keys: seq<string>)
    requires NoRepeats(keys)
    ensures NoRepeats(Keys(Present(p, keys)))
    decreases |keys|
  {
    if keys != [] {
      var front := keys[..|keys| - 1];
      var k := keys[|keys| - 1];
      PresentDistinct(p, front);
      PresentSpec(p, front);
      var ks := Keys(Present(p, front));
      if Lookup(p, k).Some? {
        assert k !in front;
        assert k !in ks;
        assert Keys(Present(p, keys)) == ks + [k];
      }
    }
  }

  lemma ShadeKeysAreDistinct()
    ensures NoRepeats(ShadeKeys)
  {
    forall i, j | 0 <= i < j < |ShadeKeys| ensures ShadeKeys[i] != ShadeKeys[j] {
      ShadeKeysDistinct(i, j);
    }
  }

  /** A generated palette shows all eleven tiles, and the sixth is the locked
      '500' tile. */
  lemma GeneratedTiles(hexColor: string, oklchOf: Rgb -> Oklch, p: Palette, format: string)
    requires HexToRgb(hexColor).Some? && p == Generated(hexColor, oklchOf)
    ensures |Tiles(p, format)| == 11
    ensures forall i :: 0 <= i < 11 ==> Tiles(p, format)[i].shade == ShadeKeys[i]
    ensures Tiles(p, format)[5].isBase
  {
    GeneratedAllPresent(hexColor, oklchOf, p);
    FullTiles(Present(p, ShadeKeys), format);
  }

  /** All eleven shades, in order, give eleven tiles with the lock on the
      sixth. */
  lemma FullTiles(es: seq<(string, Entry)>, format: string)
    requires |es| == 11 && forall j :: 0 <= j < 11 ==> es[j].0 == ShadeKeys[j]
    ensures |TilesOf(es, format)| == 11
    ensures forall i :: 0 <= i < 11 ==> TilesOf(es, format)[i].shade == ShadeKeys[i]
    ensures TilesOf(es, format)[5].isBase
  {
  }
}
