/** The code export dialog: the colour-name slug, the text each export
    format produces from a palette, and the selected-format state. */
module ExportCode {
  import opened JsText
  import opened ColorUtils

  /** The format buttons, in the order the dialog lists them. */
  const FormatNames: seq<string> :=
    ["Tailwind 3", "Hex code", "Tailwind 4", "OKLCH", "CSS", "HSL", "SCSS", "RGB", "SVG / Figma"]

  /* ---------- colour name ---------- */

  /** `s.replace(/\s+/g, '-')` on `s[i..]`: every maximal run of whitespace
      becomes a single `-`. */
  function ReplaceWhitespaceRuns(s: string, i: nat): string
    requires i <= |s|
    decreases |s| - i
  {
    if i == |s| then []
    else if IsJsWhitespace(s[i]) then "-" + ReplaceWhitespaceRuns(s, WhitespaceEnd(s, i))
    else [s[i]] + ReplaceWhitespaceRuns(s, i + 1)
  }

  /** `paletteName.toLowerCase().replace(/\s+/g, '-')`. */
  function ColorName(paletteName: string): string {
    ReplaceWhitespaceRuns(ToLower(paletteName), 0)
  }

  /** The slug holds no whitespace, so in particular no newline. */
  lemma {:induction false} RunsReplaced(s: string, i: nat)
    requires i <= |s|
    ensures NoWhitespace(ReplaceWhitespaceRuns(s, i))
    decreases |s| - i
  {
    if i < |s| {
      var j := if IsJsWhitespace(s[i]) then WhitespaceEnd(s, i) else i + 1;
      RunsReplaced(s, j);
      var head := if IsJsWhitespace(s[i]) then "-" else [s[i]];
      var rest := ReplaceWhitespaceRuns(s, j);
      assert ReplaceWhitespaceRuns(s, i) == head + rest;
      assert forall k :: 0 <= k < |rest| ==> (head + rest)[|head| + k] == rest[k];
    }
  }

  /** Text without whitespace is left as it is. */
  lemma {:induction false} RunsKept(s: string, i: nat)
    requires i <= |s| && forall k :: i <= k < |s| ==> !IsJsWhitespace(s[k])
    ensures ReplaceWhitespaceRuns(s, i) == s[i..]
    decreases |s| - i
  {
    if i < |s| {
      RunsKept(s, i + 1);
      assert s[i..] == [s[i]] + s[i + 1..];
    }
  }

  /** The colour name has no whitespace, and a name without whitespace is
      only lower-cased. */
  lemma ColorNameShape(paletteName: string)
    ensures NoWhitespace(ColorName(paletteName)) && NoNewline(ColorName(paletteName))
    ensures NoWhitespace(paletteName) ==> ColorName(paletteName) == ToLower(paletteName)
  {
    var t := ToLower(paletteName);
    RunsReplaced(t, 0);
    if NoWhitespace(paletteName) {
      forall k | 0 <= k < |t| ensures !IsJsWhitespace(t[k]) {
        assert t[k] == ToLowerChar(paletteName[k]);
      }
      RunsKept(t, 0);
      assert t[0..] == t;
    }
  }

  /* ---------- the line templates ---------- */

  datatype LineKind = CssLine | ScssLine | RgbLine | HslLine | OklchLine | SvgLine

  /** The prefix `--color-{name}-{shade}: ` shared by the custom-property lines. */
  function PropertyName(name: string, shade: string): string {
    "--color-" + name + "-" + shade + ": "
  }

  /** One line of the CSS, SCSS, RGB, HSL, OKLCH or SVG output. */
  function Line(kind: LineKind, name: string, shade: string, e: Entry): string {
    match kind
    case CssLine => PropertyName(name, shade) + ToLower(e.hex) + ";"
    case ScssLine => "$color-" + name + "-" + shade + ": " + ToLower(e.hex) + ";"
    case RgbLine =>
      PropertyName(name, shade) + Decimal(e.rgb.r) + ", " + Decimal(e.rgb.g) + ", " + Decimal(e.rgb.b) + ";"
    case HslLine =>
      PropertyName(name, shade) + Decimal(e.hsl.h) + ", " + Decimal(e.hsl.s) + "%, " + Decimal(e.hsl.l) + "%;"
    case OklchLine => PropertyName(name, shade) + e.oklch.l + " " + e.oklch.c + " " + e.oklch.h + ";"
    case SvgLine => "<stop stop-color=\"" + ToLower(e.hex) + "\" stop-opacity=\"1\"/>"
  }

  /** `.map(shade => …)` over the present shades. */
  function Lines(kind: LineKind, name: string, es: seq<(string, Entry)>): (ls: seq<string>)
    ensures |ls| == |es|
  {
    seq(|es|, i requires 0 <= i < |es| => Line(kind, name, es[i].0, es[i].1))
  }

  /** `hexObject` / `tailwindConfig`: each present shade with its lower-cased hex. */
  function HexPairs(es: seq<(string, Entry)>): (obj: seq<(string, string)>)
    ensures |obj| == |es|
  {
    seq(|es|, i requires 0 <= i < |es| => (es[i].0, ToLower(es[i].1.hex)))
  }

  /** The 'Hex code' text: a quoted JavaScript object literal. */
  function HexCodeText(name: string, obj: seq<(string, string)>): string {
    var rows := seq(|obj|, i requires 0 <= i < |obj| => "  '" + obj[i].0 + "': '" + obj[i].1 + "',");
    "'" + name + "': {\n" + Join(rows, "\n") + "\n},"
  }

  /** The Tailwind text: a `tailwind.config.js` colour block. */
  function TailwindText(name: string, obj: seq<(string, string)>): string {
    var rows := seq(|obj|, i requires 0 <= i < |obj| => "          " + obj[i].0 + ": '" + obj[i].1 + "',");
    "// tailwind.config.js\nmodule.exports = {\n  theme: {\n    extend: {\n      colors: {\n        "
      + name + ": {\n" + Join(rows, "\n") + "\n        }\n      }\n    }\n  }\n}"
  }

  /** What a format button's text selects; the Tailwind 3 and Tailwind 4
      buttons share one template. */
  datatype Format = HexCodeFormat | TailwindFormat | LineFormat(kind: LineKind)

  /** The `switch (selectedFormat)` cases; `None` is the `default` branch. */
  function FormatOf(format: string): Option<Format> {
    if format == "Hex code" then Some(HexCodeFormat)
    else if format == "CSS" then Some(LineFormat(CssLine))
    else if format == "SCSS" then Some(LineFormat(ScssLine))
    else if format == "Tailwind 3" || format == "Tailwind 4" then Some(TailwindFormat)
    else if format == "RGB" then Some(LineFormat(RgbLine))
    else if format == "HSL" then Some(LineFormat(HslLine))
    else if format == "OKLCH" then Some(LineFormat(OklchLine))
    else if format == "SVG / Figma" then Some(LineFormat(SvgLine))
    else None
  }

  /** The text one format prints for the colour name and the present shades. */
  function FormatText(f: Format, name: string, es: seq<(string, Entry)>): string {
    match f
    case HexCodeFormat => HexCodeText(name, HexPairs(es))
    case TailwindFormat => TailwindText(name, HexPairs(es))
    case LineFormat(kind) => Join(Lines(kind, name, es), "\n")
  }

  /** `generateCodeContent` for a palette (`None` for a missing one), a
      palette name and a selected format. */
  function CodeText(palette: Option<Palette>, paletteName: string, format: string): string {
    if palette.None? || palette.value == [] then ""
    else
      match FormatOf(format)
      case None => ""
      case Some(f) => FormatText(f, ColorName(paletteName), Present(palette.value, ShadeKeys))
  }

  /** The `shades.forEach` loop that fills `hexObject` (and `tailwindConfig`). */
  method CollectHexes(p: Palette) returns (obj: seq<(string, string)>)
    ensures obj == HexPairs(Present(p, ShadeKeys))
  {
    obj := [];
    for i := 0 to |ShadeKeys|
      invariant obj == HexPairs(Present(p, ShadeKeys[..i]))
    {
      var shade := ShadeKeys[i];
      assert ShadeKeys[..i + 1][..i] == ShadeKeys[..i];
      var e := Lookup(p, shade);
      if e.Some? {
        obj := obj + [(shade, ToLower(e.value.hex))];
      }
    }
    assert ShadeKeys[..|ShadeKeys|] == ShadeKeys;
  }

  /* ---------- properties of the output ---------- */

  /** The printed parts of an entry hold no line break. */
  predicate Printable(e: Entry) {
    NoNewline(e.hex) && NoNewline(e.oklch.l) && NoNewline(e.oklch.c) && NoNewline(e.oklch.h)
  }

  lemma LowerNoNewline(s: string)
    requires NoNewline(s)
    ensures NoNewline(ToLower(s))
  {
  }

  /** A line built from a single-line name, shade and entry is a single line. */
  lemma LineNoNewline(kind: LineKind, name: string, shade: string, e: Entry)
    requires NoNewline(name) && NoNewline(shade) && Printable(e)
    ensures NoNewline(Line(kind, name, shade, e))
  {
    LowerNoNewline(e.hex);
    DecimalNoNewline(e.rgb.r);
    DecimalNoNewline(e.rgb.g);
    DecimalNoNewline(e.rgb.b);
    DecimalNoNewline(e.hsl.h);
    DecimalNoNewline(e.hsl.s);
    DecimalNoNewline(e.hsl.l);
  }

  /** Every line of a line-based format is a single line when the palette's
      printed values are. */
  lemma LinesHaveNoNewline(kind: LineKind, paletteName: string, p: Palette)
    requires forall i :: 0 <= i < |p| ==> Printable(p[i].1)
    ensures var ls := Lines(kind, ColorName(paletteName), Present(p, ShadeKeys));
      forall i :: 0 <= i < |ls| ==> NoNewline(ls[i])
  {
    var name := ColorName(paletteName);
    var es := Present(p, ShadeKeys);
    ColorNameShape(paletteName);
    PresentSpec(p, ShadeKeys);
    forall i | 0 <= i < |es| ensures NoNewline(Line(kind, name, es[i].0, es[i].1)) {
      var k := es[i].0;
      assert k == Keys(es)[i];
      LookupSpec(p, k);
      ShadeKeyNoNewline(k);
      LineNoNewline(kind, name, k, es[i].1);
    }
  }

  lemma ShadeKeyNoNewline(k: string)
    requires k in ShadeKeys
    ensures NoNewline(k)
  {
  }

  /** The line-based formats print one line per present shade: splitting the
      text at its line breaks gives back the lines, in shade order. */
  lemma LineFormatSplits(kind: LineKind, format: string, paletteName: string, p: Palette)
    requires FormatOf(format) == Some(LineFormat(kind))
    requires forall i :: 0 <= i < |p| ==> Printable(p[i].1)
    requires Present(p, ShadeKeys) != [] && p != []
    ensures SplitLines(CodeText(Some(p), paletteName, format))
      == Lines(kind, ColorName(paletteName), Present(p, ShadeKeys))
  {
    CodeTextOfLines(kind, format, paletteName, p);
    LinesSplit(kind, ColorName(paletteName), paletteName, p);
  }

  lemma CodeTextOfLines(kind: LineKind, format: string, paletteName: string, p: Palette)
    requires FormatOf(format) == Some(LineFormat(kind)) && p != []
    ensures CodeText(Some(p), paletteName, format)
      == Join(Lines(kind, ColorName(paletteName), Present(p, ShadeKeys)), "\n")
  {
  }

  lemma LinesSplit(kind: LineKind, name: string, paletteName: string, p: Palette)
    requires name == ColorName(paletteName)
    requires forall i :: 0 <= i < |p| ==> Printable(p[i].1)
    requires Present(p, ShadeKeys) != []
    ensures SplitLines(Join(Lines(kind, name, Present(p, ShadeKeys)), "\n"))
      == Lines(kind, name, Present(p, ShadeKeys))
  {
    LinesHaveNoNewline(kind, paletteName, p);
    JoinSplit(Lines(kind, name, Present(p, ShadeKeys)));
  }

  /** Every button selects a template, and only the buttons do. */
  lemma FormatsRecognised(format: string)
    ensures FormatOf(format).Some? <==> format in FormatNames
  {
  }

  /** An SCSS line is the CSS line with the leading `--` replaced by `$`. */
  lemma ScssFromCss(name: string, shade: string, e: Entry)
    ensures Line(ScssLine, name, shade, e) == "$" + Line(CssLine, name, shade, e)[2..]
  {
    var tail := "color-" + name + "-" + shade + ": " + ToLower(e.hex) + ";";
    assert Line(CssLine, name, shade, e) == "--" + tail;
    assert Line(ScssLine, name, shade, e) == "$" + tail;
    assert ("--" + tail)[2..] == tail;
  }

  /** Both Tailwind buttons produce the same configuration. */
  lemma TailwindVersionsAgree(palette: Option<Palette>, paletteName: string)
    ensures CodeText(palette, paletteName, "Tailwind 3") == CodeText(palette, paletteName, "Tailwind 4")
  {
    assert FormatOf("Tailwind 3") == FormatOf("Tailwind 4");
  }

  /** No output for a missing or empty palette, or for a format no button offers. */
  lemma NoTextWithout(palette: Option<Palette>, paletteName: string, format: string)
    ensures (palette.None? || palette.value == []) ==> CodeText(palette, paletteName, format) == ""
    ensures format !in FormatNames ==> CodeText(palette, paletteName, format) == ""
  {
    FormatsRecognised(format);
  }

  /** A generated palette's 'Hex code' text lists all eleven shades with
      their lower-cased hex strings, in shade order. */
  lemma GeneratedHexObject(hexColor: string, oklchOf: Rgb -> Oklch, p: Palette)
    requires HexToRgb(hexColor).Some? && p == Generated(hexColor, oklchOf)
    ensures var obj := HexPairs(Present(p, ShadeKeys));
      |obj| == 11 && forall j :: 0 <= j < 11 ==> obj[j] == (ShadeKeys[j], ToLower(p[j].1.hex))
  {
    GeneratedAllPresent(hexColor, oklchOf, p);
  }

  /** The dialog's state: the selected export format. */
  class ExportCodeModal {
    var selectedFormat: string

    constructor ()
      ensures selectedFormat == "Hex code"
    {
      selectedFormat := "Hex code";
    }

    /** A click on the `i`-th format button. */
    method SelectFormat(i: nat)
      requires i < |FormatNames|
      modifies this
      ensures selectedFormat == FormatNames[i]
    {
      selectedFormat := FormatNames[i];
    }

    /** `generateCodeContent()` for the current format. */
    method GenerateCodeContent(palette: Option<Palette>, paletteName: string) returns (code: string)
      ensures code == CodeText(palette, paletteName, selectedFormat)
    {
      if palette.None? || palette.value == [] {
        return "";
      }
      var name := ColorName(paletteName);
      var f := FormatOf(selectedFormat);
      match f {
        case None =>
          code := "";
        case Some(HexCodeFormat) =>
          var obj := CollectHexes(palette.value);
          code := HexCodeText(name, obj);
        case Some(TailwindFormat) =>
          var obj := CollectHexes(palette.value);
          code := TailwindText(name, obj);
        case Some(LineFormat(kind)) =>
          code := Join(Lines(kind, name, Present(palette.value, ShadeKeys)), "\n");
      }
    }
  }
}
