/** The generator page: the primary colour input, the display-format button
    and the palette recomputed from the primary colour. */
module ColorGeneratorPage {
  import opened JsText
  import opened ColorUtils

  /** The display formats, in the order the format button cycles through them. */
  const DisplayFormats: seq<string> := ["HEX", "HSL", "RGB", "OKLCH"]

  /** `formats.indexOf(format)`: the first position holding `format`, or -1. */
  function IndexOf(xs: seq<string>, x: string): (k: int)
    ensures -1 <= k < |xs|
    ensures k >= 0 ==> xs[k] == x && forall j :: 0 <= j < k ==> xs[j] != x
    ensures k == -1 ==> x !in xs
    decreases |xs|
  {
    if xs == [] then -1
    else if xs[0] == x then 0
    else
      var k := IndexOf(xs[1..], x);
      if k == -1 then -1 else k + 1
  }

  /** The format shown after one press of the format button. */
  function NextFormat(format: string): (next: string)
    ensures next in DisplayFormats
  {
    DisplayFormats[(IndexOf(DisplayFormats, format) + 1) % |DisplayFormats|]
  }

  /** HEX → HSL → RGB → OKLCH → HEX; an unknown format restarts at HEX. */
  lemma FormatCycle()
    ensures NextFormat("HEX") == "HSL" && NextFormat("HSL") == "RGB"
    ensures NextFormat("RGB") == "OKLCH" && NextFormat("OKLCH") == "HEX"
    ensures forall f :: f !in DisplayFormats ==> NextFormat(f) == "HEX"
  {
    NextOfHex();
    NextOfHsl();
    NextOfRgb();
    NextOfOklch();
    forall f | f !in DisplayFormats ensures NextFormat(f) == "HEX" {
      UnknownNext(f);
    }
  }

  /** The successor of each listed format, one lemma per format. */
  lemma NextOfHex()
    ensures NextFormat("HEX") == "HSL"
  {
    assert IndexOf(DisplayFormats, "HEX") == 0;
  }

  lemma NextOfHsl()
    ensures NextFormat("HSL") == "RGB"
  {
    assert IndexOf(DisplayFormats, "HSL") == 1;
  }

  lemma NextOfRgb()
    ensures NextFormat("RGB") == "OKLCH"
  {
    assert IndexOf(DisplayFormats, "RGB") == 2;
  }

  lemma NextOfOklch()
    ensures NextFormat("OKLCH") == "HEX"
  {
    assert IndexOf(DisplayFormats, "OKLCH") == 3;
  }

  /** A format not in the list is followed by the first one. */
  lemma UnknownNext(f: string)
    requires f !in DisplayFormats
    ensures NextFormat(f) == "HEX"
  {
    assert IndexOf(DisplayFormats, f) == -1;
  }

  /** Four presses return to the format shown before them. */
  lemma FourPressesReturn(format: string)
    requires format in DisplayFormats
    ensures NextFormat(NextFormat(NextFormat(NextFormat(format)))) == format
  {
    assert format == DisplayFormats[0] || format == DisplayFormats[1]
      || format == DisplayFormats[2] || format == DisplayFormats[3];
    NextOfHex();
    NextOfHsl();
    NextOfRgb();
    NextOfOklch();
  }

  /** The typed-input pattern `^#([A-Fa-f0-9]{6}|[A-Fa-f0-9]{3})$`. */
  predicate IsTypedColor(s: string) {
    (|s| == 7 || |s| == 4) && s[0] == '#' && AllHex(s[1..])
  }

  /** The six-digit typed colours are exactly the `#`-prefixed colours the
      colour engine parses; a three-digit one gives the empty palette. */
  lemma TypedColorPalette(s: string, oklchOf: Rgb -> Oklch)
    requires IsTypedColor(s)
    ensures |s| == 7 ==> |Generated(s, oklchOf)| == 11
    ensures |s| == 4 ==> Generated(s, oklchOf) == []
  {
    GeneratedStructure(s, oklchOf);
  }

  /** The initial primary colour parses, so the first effect fills all
      eleven shades. */
  lemma InitialPaletteFull(oklchOf: Rgb -> Oklch)
    ensures |Generated("#4ade80", oklchOf)| == 11
  {
    assert IsHexColor("#4ade80");
    GeneratedStructure("#4ade80", oklchOf);
  }

  /** The page state (the `useState` hooks). */
  class ColorGenerator {
    var primaryColor: string
    var colorFormat: string
    var palette: Palette
    var paletteName: string
    /** The OKLCH approximation used when shades are generated. */
    const oklchOf: Rgb -> Oklch

    /** The palette matches the primary colour. The effect establishes it,
        and every handler keeps it: each one that changes the colour runs
        the effect, and the others leave colour and palette alone. */
    predicate Synced()
      reads this
    {
      primaryColor != "" ==> palette == Generated(primaryColor, oklchOf)
    }

    /** The initial state, before the first effect. */
    constructor (oklchOf: Rgb -> Oklch)
      ensures primaryColor == "#4ade80" && colorFormat == "HEX" && palette == []
      ensures paletteName == "My Palette" && this.oklchOf == oklchOf
    {
      primaryColor := "#4ade80";
      colorFormat := "HEX";
      palette := [];
      paletteName := "My Palette";
      this.oklchOf := oklchOf;
    }

    /** The effect on `primaryColor`: a non-empty colour regenerates the palette. */
    method PaletteEffect()
      modifies this
      ensures primaryColor == old(primaryColor) && colorFormat == old(colorFormat)
      ensures paletteName == old(paletteName)
      ensures palette == if primaryColor != "" then Generated(primaryColor, oklchOf) else old(palette)
      ensures Synced()
    {
      if primaryColor != "" {
        palette := GenerateShades(primaryColor, oklchOf);
      }
    }

    /** `handleColorChange` followed by the effect: a typed value is taken
        only when it matches the pattern. */
    method HandleColorChange(newColor: string)
      modifies this
      ensures primaryColor == if IsTypedColor(newColor) then newColor else old(primaryColor)
      ensures colorFormat == old(colorFormat) && paletteName == old(paletteName)
      ensures palette == if IsTypedColor(newColor) then Generated(newColor, oklchOf) else old(palette)
      ensures IsTypedColor(newColor) ==> Synced()
      ensures old(Synced()) ==> Synced()
    {
      if IsTypedColor(newColor) {
        primaryColor := newColor;
        PaletteEffect();
      }
    }

    /** The native colour picker's `onChange` followed by the effect: the
        value is taken without validation. */
    method PickColor(value: string)
      modifies this
      ensures primaryColor == value && colorFormat == old(colorFormat)
      ensures paletteName == old(paletteName)
      ensures value != "" ==> palette == Generated(value, oklchOf)
      ensures value == "" ==> palette == old(palette)
      ensures Synced()
    {
      primaryColor := value;
      PaletteEffect();
    }

    /** A press of the format button. */
    method CycleFormat()
      modifies this
      ensures colorFormat == NextFormat(old(colorFormat))
      ensures primaryColor == old(primaryColor) && palette == old(palette)
      ensures paletteName == old(paletteName)
      ensures old(Synced()) ==> Synced()
    {
      var currentIndex := IndexOf(DisplayFormats, colorFormat);
      var nextIndex := (currentIndex + 1) % |DisplayFormats|;
      colorFormat := DisplayFormats[nextIndex];
    }

    /** The palette-name input. */
    method SetPaletteName(name: string)
      modifies this
      ensures paletteName == name && primaryColor == old(primaryColor)
      ensures colorFormat == old(colorFormat) && palette == old(palette)
      ensures old(Synced()) ==> Synced()
    {
      paletteName := name;
    }
  }
}
