# colorteste — a Dafny model of the colour engine and its pages

This project models the core of the colorteste web app, a React tool for building colour palettes:

- **ColorUtils** models `src/utils/colorUtils.js`:
  - hex parsing, which accepts six hex digits with an optional `#` in either case;
  - hex printing, including the 32-bit `<<` arithmetic and `toString(16).slice(1)`;
  - the RGB↔HSL conversions, computed exactly over `real` with `Math.round` as `floor(x + 1/2)`;
  - the 11-shade generator, whose loop is an imperative method proved equal to a specification function;
  - `formatColorValues`, the BT.601 light/dark test and the WCAG contrast ratio.
- **JsText** holds the JavaScript string and number semantics the other modules share:
  - ASCII `toLowerCase`/`toUpperCase`, `trim` over the JS whitespace set, `slice`;
  - `Number.prototype.toString(radix)`;
  - `parseInt(s, 16)`, following the ECMAScript algorithm: strip leading whitespace, sign, `0x` prefix, longest hex prefix; `NaN` is `None`;
  - `join` and `split` on newlines.
- **ExportCode** models `src/components/ExportCodeModal.jsx`:
  - the colour-name slug;
  - the nine export formats, as one template per line kind plus the hex-object and Tailwind texts;
  - the `generateCodeContent` switch;
  - the modal's selected-format state, as a class.
- **ColorPalette** models `src/components/ColorPalette.jsx`: the display value per format, and one tile per present shade in `shadeOrder`, with its text colour and the lock on shade 500.
- **ColorGeneratorPage** models `src/pages/ColorGenerator.jsx`. It is a class holding the page's state: the primary colour, the display format, the palette and the palette name. Its handlers include the palette effect: typed input is validated against a pattern, the native picker's value is not, and there is the format-cycling button.
- **PromptJsonPage** models `src/pages/PromptJson.jsx`:
  - the list of extra fields, with its add, update, remove and edit-title handlers;
  - the object that `generate` builds, as a key/value sequence in JavaScript enumeration order.
- **ColorPickerPage** models `src/pages/ColorPicker.jsx`:
  - the 30 predefined swatches;
  - grouping by category, as a loop proved equal to a specification function;
  - the RGB read-out through `parseInt`;
  - the case-sensitive selection highlight.

Parameters stand for what the model cannot see:

- `oklchOf: Rgb -> Oklch` stands for `rgbToOklch`. It uses cube roots, `atan2` and floating point, and the model treats the three printed components as strings.
- `pow24: real -> real` stands for `Math.pow(x, 2.4)`. Only its range on [0,1] is assumed, as a requires.
- Ids from `Date.now()` and answers from `prompt()` are method arguments.

**Shade 500 follows the code.** The comment at `src/utils/colorUtils.js:150` calls shade 500 the base colour, an "exact match". The code does something else:

- it feeds the input's rounded HSL back through `hslToRgb`;
- some inputs do come back unchanged: `Shade500Keeps505c47`;
- others move: `#3b82f6` becomes `#3c83f6` (`Shade500Moves3b82f6`), and `#ef4444` becomes `#ef4343` (`Shade500Moves_ef4444`).

The model follows the code. `Shade500Rgb` states what shade 500 is in general.

**Stored HSL is recomputed from the shade's RGB.** The comment at `src/utils/colorUtils.js:119` says the generator keeps the hue consistent. This holds for the targets: each shade's target takes `h` from the anchor. But the stored `hsl` is computed from the shade's final, rounded RGB (`src/utils/colorUtils.js:183`), not taken from the target. The model therefore proves hue invariance only for the generator's targets (`ShadeTargetsInBounds`), not for the stored values.

## Model

| member | source | states |
|---|---|---|
| JsText.Trim | src/pages/PromptJson.jsx:119 | the result is the infix of `s` that starts where the leading whitespace run ends; everything dropped before or after it is JS whitespace, and the result neither starts nor ends with whitespace |
| JsText.TrimEmptyIffBlank | src/pages/PromptJson.jsx:125 | `s.trim()` is empty exactly when every character of `s` is whitespace, so a blank subject is refused |
| JsText.TrimIdempotent | src/pages/PromptJson.jsx:119-120 | trimming a trimmed string changes nothing, so a stored title is already trimmed |
| JsText.Slice | src/pages/ColorPicker.jsx:145 | `slice(start, end)` within bounds is exactly `s[start..end]` |
| JsText.HexDigitsRoundTrip | src/utils/colorUtils.js:15 | `n.toString(16)` consists of hex digits whose base-16 value is `n` |
| JsText.DigitsLeadingZero | src/utils/colorUtils.js:15 | `n.toString(16)` starts with `0` only for `n == 0` |
| JsText.ParseIntHexOfDigits | src/utils/colorUtils.js:7-9 | `parseInt(s, 16)` of a non-empty run of hex digits is their base-16 value, never NaN |
| JsText.ParseIntOfToString | src/utils/colorUtils.js:15 | `parseInt(n.toString(16), 16) == n` for every integer, sign included |
| JsText.ParseHexPair | src/pages/ColorPicker.jsx:145 | `parseInt` of two hex digits is `16 * high + low` |
| JsText.JoinSplit | src/components/ExportCodeModal.jsx:63-66 | splitting `lines.join('\n')` at newlines gives the lines back when none of them has a newline |
| ColorUtils.LookupSpec | src/components/ExportCodeModal.jsx:54 | `palette[shade]` is defined exactly when some entry has that key, and it returns the first such entry |
| ColorUtils.RoundBounds | src/utils/colorUtils.js:43-45 | `Math.round` keeps a value within integer bounds it already lies between |
| ColorUtils.RoundMonotone | src/utils/colorUtils.js:77-79 | `Math.round` is monotone |
| ColorUtils.ToInt32 | src/utils/colorUtils.js:15 | the 32-bit wrap of `<<` lands in the int32 range and is the identity on it |
| ColorUtils.HexToRgb | src/utils/colorUtils.js:4-11 | a colour comes back exactly when the input is six hex digits with an optional `#`, in either case; its channels are the pair values in 0..255 |
| ColorUtils.PairIsParseInt | src/utils/colorUtils.js:7-9 | the pair value is what `parseInt(pair, 16)` returns |
| ColorUtils.ShorthandRejected | src/utils/colorUtils.js:5 | `#fff`, `red` and `#zzz` do not parse; `#505c47` parses to (80, 92, 71) |
| ColorUtils.RgbToHex | src/utils/colorUtils.js:14-16 | `rgbToHex` with the 32-bit `<<` and `toString(16).slice(1)`; it has no contract of its own: RgbToHexFormat, RgbToHexShape and HexRoundTrip state its output and that `hexToRgb` inverts it |
| ColorUtils.RgbToHexFormat | src/utils/colorUtils.js:14-16 | for channels in 0..255 the result is `#` and two lower-case digits per channel; the leading `1` that `1 << 24` adds is sliced off |
| ColorUtils.RgbToHexShape | src/utils/colorUtils.js:14-16 | the printed colour has seven characters: `#` and six lower-case hex digits |
| ColorUtils.HexRoundTrip | src/utils/colorUtils.js:4-16 | `hexToRgb(rgbToHex(c)) == c` for every in-range colour |
| ColorUtils.HexCanonicalForm | src/utils/colorUtils.js:4-16 | `rgbToHex(hexToRgb(s))` is `#` followed by the lower-cased digits of `s` |
| ColorUtils.HueSextantBounds | src/utils/colorUtils.js:34-39 | the hue before the division by 6 lies in [0, 6) |
| ColorUtils.HueTiesAgree | src/utils/colorUtils.js:34-38 | when two channels tie for the maximum, their switch arms give the same hue, so the case order does not matter |
| ColorUtils.Saturation | src/utils/colorUtils.js:32 | both saturation formulas stay within [0, 1] |
| ColorUtils.RgbToHsl | src/utils/colorUtils.js:19-47 | for in-range RGB, hue is in 0..360 and saturation and lightness in 0..100; a grey has hue and saturation 0 |
| ColorUtils.WrapHue | src/utils/colorUtils.js:56-57 | a shifted hue in [-1, 2] is wrapped into [0, 1] |
| ColorUtils.Hue2Rgb | src/utils/colorUtils.js:55-62 | every arm of `hue2rgb` returns a value between `p` and `q` |
| ColorUtils.PQBounds | src/utils/colorUtils.js:69-70 | 0 ≤ p ≤ l ≤ q ≤ 1 for saturation and lightness in [0, 1] |
| ColorUtils.HslToRgb | src/utils/colorUtils.js:50-81 | saturation 0 gives a grey of `round(l * 255)`; otherwise every channel lies between `round(p * 255)` and `round(q * 255)`; in-bounds input gives in-range RGB |
| ColorUtils.ShadeTargetsInBounds | src/utils/colorUtils.js:120-176 | every shade target keeps the anchor hue and has saturation and lightness in [0, 100], so the `Math.min(…, 100)` clamps change nothing |
| ColorUtils.ShadeTargetCurve | src/utils/colorUtils.js:120-176 | the 500 target is the anchor; shades 50…400 have lightness 96, 92, 84, 76, 64 and saturation floors 8…16; lightness strictly decreases over 600…950 and stays at least 4 |
| ColorUtils.ShadeTargets | src/utils/colorUtils.js:120-176 | the shade table holds eleven targets, one per shade key; ShadeTargetsInBounds and ShadeTargetCurve state their values |
| ColorUtils.ShadeEntry | src/utils/colorUtils.js:181-191 | each stored entry is consistent: its hex, HSL and OKLCH are all computed from its RGB |
| ColorUtils.PaletteFor | src/utils/colorUtils.js:178-192 | the palette of an anchor colour has eleven entries |
| ColorUtils.PaletteAt | src/utils/colorUtils.js:180-191 | entry `i` of the palette is keyed by the `i`-th shade key and built from the `i`-th target |
| ColorUtils.Generated | src/utils/colorUtils.js:112-195 | `generateShades` returns `{}` exactly when the input does not parse, and eleven entries otherwise |
| ColorUtils.GenerateShades | src/utils/colorUtils.js:112-195 | the loop over the shade table returns the specification palette: `{}` for an unparsable input, otherwise the eleven entries in shade order |
| ColorUtils.GeneratedStructure | src/utils/colorUtils.js:112-195 | the palette is empty exactly when the input does not parse; otherwise it holds 11 consistent entries keyed 50…950, whose RGB is `hslToRgb` of the target and whose hex parses back to that RGB |
| ColorUtils.GeneratedLookups | src/utils/colorUtils.js:178-192 | in a generated palette, `palette[shade]` finds the entry at that shade's position for all eleven shade keys |
| ColorUtils.Shade500Rgb | src/utils/colorUtils.js:146-150 | shade 500's RGB is `hslToRgb` of the input's rounded HSL, and its hex prints that RGB |
| ColorUtils.Shade500Keeps505c47 | src/utils/colorUtils.js:146-150 | `#505c47` comes back unchanged at shade 500 |
| ColorUtils.Shade500Moves3b82f6 | src/utils/colorUtils.js:146-150 | `#3b82f6` comes back as (60, 131, 246) at shade 500, not as the input's (59, 130, 246) |
| ColorUtils.Shade500Moves_ef4444 | src/utils/colorUtils.js:146-150 | `#ef4444` comes back as (239, 67, 67) at shade 500, not as the input's (239, 68, 68) |
| ColorUtils.FormattedHexParses | src/utils/colorUtils.js:198-204 | the formatted hex of a consistent entry is `#` and six upper-case digits, and it parses back to the entry's RGB |
| ColorUtils.UpperHexParses | src/utils/colorUtils.js:200 | upper-casing a printed colour keeps its shape and the colour it parses to |
| ColorUtils.CssFunction | src/utils/colorUtils.js:201-203 | a CSS functional notation is the name, `(`, the arguments and `)`; the arguments are exactly the text between the parentheses |
| ColorUtils.FormatColorValues | src/utils/colorUtils.js:198-205 | `formatColorValues`; it has no contract of its own: FormattedHexParses, ColorValueOthers and FormatsDistinct state its four texts |
| ColorUtils.IsLightColor | src/utils/colorUtils.js:232-238 | light exactly when the hex parses and `(299r + 587g + 114b) / 1000 > 128` |
| ColorUtils.GreyIsDark | src/utils/colorUtils.js:232-238 | `#808080` and the unparsable `#fff` count as dark; `#ffffff` counts as light |
| ColorUtils.Linearize | src/utils/colorUtils.js:210-213 | the linearised channel lies in [0, 1] |
| ColorUtils.Luminance | src/utils/colorUtils.js:209-215 | the relative luminance lies in [0, 1] |
| ColorUtils.ContrastRatio | src/utils/colorUtils.js:208-229 | the ratio is 1 when either colour fails to parse, and always lies in [1, 21] |
| ColorUtils.ContrastSymmetric | src/utils/colorUtils.js:217-228 | the ratio does not depend on the order of the two colours |
| ColorUtils.PresentSpec | src/components/ExportCodeModal.jsx:63-64 | filtering the shade list by `palette[shade]` keeps exactly the shades the palette holds, in shade order, each with its own entry |
| ColorUtils.GeneratedAllPresent | src/components/ExportCodeModal.jsx:48-64 | for a generated palette, all eleven shades survive the filter, in order, with their entries |
| ExportCode.RunsReplaced | src/components/ExportCodeModal.jsx:47 | `replace(/\s+/g, '-')` leaves no whitespace |
| ExportCode.RunsKept | src/components/ExportCodeModal.jsx:47 | a string without whitespace is left unchanged |
| ExportCode.ColorNameShape | src/components/ExportCodeModal.jsx:47 | the colour name has no whitespace and no newline; a name without whitespace is just lower-cased |
| ExportCode.ColorName | src/components/ExportCodeModal.jsx:47 | the lower-cased palette name with each whitespace run replaced by `-`; it has no contract of its own: ColorNameShape, RunsReplaced and RunsKept state its result |
| ExportCode.CollectHexes | src/components/ExportCodeModal.jsx:52-57 | the `forEach` fills the hex object with each present shade and its lower-cased hex, in shade order |
| ExportCode.LinesHaveNoNewline | src/components/ExportCodeModal.jsx:62-117 | when no entry's hex or OKLCH text has a newline, no per-shade line of any line format has one |
| ExportCode.LineFormatSplits | src/components/ExportCodeModal.jsx:62-117 | splitting a line format's output at newlines gives back exactly one template line per present shade |
| ExportCode.Line | src/components/ExportCodeModal.jsx:62-117 | the template line of one shade for each line format; it has no contract of its own: LinesHaveNoNewline and ScssFromCss state its properties |
| ExportCode.FormatsRecognised | src/components/ExportCodeModal.jsx:32-42 | the switch recognises a format exactly when it is one of the nine format buttons |
| ExportCode.FormatOf | src/components/ExportCodeModal.jsx:50-120 | the `switch` on the selected format name; it has no contract of its own: FormatsRecognised and TailwindVersionsAgree state which names it recognises and how |
| ExportCode.ScssFromCss | src/components/ExportCodeModal.jsx:62-72 | an SCSS line is the CSS line with `--` replaced by `$` |
| ExportCode.TailwindVersionsAgree | src/components/ExportCodeModal.jsx:74-84 | Tailwind 3 and Tailwind 4 produce the same text |
| ExportCode.NoTextWithout | src/components/ExportCodeModal.jsx:45 | a missing or empty palette gives `''`, and so does any name outside the nine formats |
| ExportCode.CodeText | src/components/ExportCodeModal.jsx:44-122 | the text `generateCodeContent` returns; it has no contract of its own: GenerateCodeContent is proved equal to it, and NoTextWithout, LineFormatSplits and GeneratedHexObject state its content |
| ExportCode.GeneratedHexObject | src/components/ExportCodeModal.jsx:52-57 | for a generated palette the hex object holds all eleven shades, in order, with their lower-cased hex |
| ExportCode.ExportCodeModal.constructor | src/components/ExportCodeModal.jsx:23 | the modal starts on `Hex code` |
| ExportCode.ExportCodeModal.SelectFormat | src/components/ExportCodeModal.jsx:180-190 | clicking a format button selects that button's name |
| ExportCode.ExportCodeModal.GenerateCodeContent | src/components/ExportCodeModal.jsx:44-122 | the generated code is the specification text for the palette, name and selected format |
| ColorPalette.ColorValueHex | src/components/ColorPalette.jsx:23-32 | HEX and every unknown format show the upper-cased hex, which parses back to the entry's RGB |
| ColorPalette.ColorValueOthers | src/components/ColorPalette.jsx:26-29 | RGB shows `rgb(` + the three decimal channels separated by `, ` + `)`; HSL shows `hsl(` + hue, saturation `%` and lightness `%` + `)`; OKLCH shows `oklch(` + its three printed components separated by spaces + `)` |
| ColorPalette.FormatsDistinct | src/components/ColorPalette.jsx:25-30 | for a consistent entry the four formats show four different texts, starting with `#`, `r`, `h` and `o` |
| ColorPalette.ColorValue | src/components/ColorPalette.jsx:23-32 | `getColorValue`; it has no contract of its own: ColorValueHex, ColorValueOthers and FormatsDistinct state what each format shows |
| ColorPalette.TilesFollowShadeOrder | src/components/ColorPalette.jsx:34-41 | a tile appears exactly for each shade the palette holds, in shade order, showing that shade's entry |
| ColorPalette.TileTextColour | src/components/ColorPalette.jsx:43-67 | tile text is black exactly when the colour is light by the luma rule |
| ColorPalette.OnlyBaseLocked | src/components/ColorPalette.jsx:45-80 | a tile carries the lock exactly when its shade is 500, and no two tiles carry it |
| ColorPalette.PresentDistinct | src/components/ColorPalette.jsx:39-41 | a list of distinct shade keys renders each shade at most once |
| ColorPalette.GeneratedTiles | src/components/ColorPalette.jsx:34-45 | a generated palette shows all eleven tiles in order, and the sixth is the locked 500 tile |
| ColorPalette.TileFor | src/components/ColorPalette.jsx:39-80 | what one shade's tile shows; it has no contract of its own: TileTextColour and OnlyBaseLocked state its text colour and lock |
| ColorPalette.Tiles | src/components/ColorPalette.jsx:34-80 | there is one tile per shade that survives the filter |
| ColorGeneratorPage.IndexOf | src/pages/ColorGenerator.jsx:195 | `indexOf` returns the first position holding the value, or -1 when none does |
| ColorGeneratorPage.NextFormat | src/pages/ColorGenerator.jsx:194-197 | the next format is always one of the four display formats |
| ColorGeneratorPage.FormatCycle | src/pages/ColorGenerator.jsx:194-197 | the cycle goes HEX → HSL → RGB → OKLCH → HEX, and an unknown format restarts at HEX |
| ColorGeneratorPage.FourPressesReturn | src/pages/ColorGenerator.jsx:194-197 | four presses return to the format shown before them |
| ColorGeneratorPage.TypedColorPalette | src/pages/ColorGenerator.jsx:56 | a typed six-digit colour gives an 11-shade palette, and an accepted three-digit one gives the empty palette |
| ColorGeneratorPage.IsTypedColor | src/pages/ColorGenerator.jsx:56 | the typed-input pattern: `#` followed by six or by three hex digits in either case; it has no contract of its own: TypedColorPalette states what an accepted input gives |
| ColorGeneratorPage.InitialPaletteFull | src/pages/ColorGenerator.jsx:29 | the initial colour `#4ade80` gives all eleven shades |
| ColorGeneratorPage.ColorGenerator.constructor | src/pages/ColorGenerator.jsx:29-32 | the initial state is `#4ade80`, HEX, `{}` and `My Palette` |
| ColorGeneratorPage.ColorGenerator.PaletteEffect | src/pages/ColorGenerator.jsx:47-52 | a non-empty primary colour regenerates the palette, and nothing else changes |
| ColorGeneratorPage.ColorGenerator.HandleColorChange | src/pages/ColorGenerator.jsx:54-59 | a typed value is taken, and the palette regenerated, only when it matches the pattern; otherwise nothing changes |
| ColorGeneratorPage.ColorGenerator.PickColor | src/pages/ColorGenerator.jsx:221 | the picker's value is taken without validation, and the palette follows it |
| ColorGeneratorPage.ColorGenerator.CycleFormat | src/pages/ColorGenerator.jsx:193-198 | a press of the format button moves to the next format and changes nothing else |
| ColorGeneratorPage.ColorGenerator.SetPaletteName | src/pages/ColorGenerator.jsx:166 | the palette-name input sets only the name |
| PromptJsonPage.UpdatedSpec | src/pages/PromptJson.jsx:101-102 | an update keeps the length, the order and the ids, and writes only the named field of the entries with that id |
| PromptJsonPage.UpdateMissing | src/pages/PromptJson.jsx:101-102 | an update for an absent id changes nothing |
| PromptJsonPage.Updated | src/pages/PromptJson.jsx:101-102 | the update keeps the list's length; UpdatedSpec and UpdateMissing state the rest |
| PromptJsonPage.RemovedSpec | src/pages/PromptJson.jsx:104-105 | removal keeps exactly the entries with other ids, in order, and drops one element per entry with the id |
| PromptJsonPage.RemoveIdempotent | src/pages/PromptJson.jsx:105 | removing an id twice is removing it once |
| PromptJsonPage.RemovedAppend | src/pages/PromptJson.jsx:105 | removal distributes over concatenation |
| PromptJsonPage.AddThenRemove | src/pages/PromptJson.jsx:84-105 | adding a field with a fresh id and then removing that id gives the list back |
| PromptJsonPage.Removed | src/pages/PromptJson.jsx:104-105 | the `filter`; it has no contract of its own: RemovedSpec, RemoveIdempotent, RemovedAppend and AddThenRemove state its result |
| PromptJsonPage.PutSpec | src/pages/PromptJson.jsx:139 | `{...a, [k]: v}` maps `k` to `v`, keeps every other key's value, and appends `k` only when it is new |
| PromptJsonPage.Put | src/pages/PromptJson.jsx:139 | `{...a, [k]: v}` on a key/value sequence; it has no contract of its own: PutSpec states its result |
| PromptJsonPage.ReducedGet | src/pages/PromptJson.jsx:139 | after the `reduce`, each title maps to the value of its last field |
| PromptJsonPage.ReducedKeys | src/pages/PromptJson.jsx:139 | the reduced object's keys are the titles in order of first occurrence |
| PromptJsonPage.Reduced | src/pages/PromptJson.jsx:139 | the `reduce` over the fields; it has no contract of its own: ReducedGet and ReducedKeys state its result |
| PromptJsonPage.MergeGet | src/pages/PromptJson.jsx:137-140 | a spread's keys override the earlier ones, and other keys keep their values |
| PromptJsonPage.MergeKeys | src/pages/PromptJson.jsx:137-140 | a spread appends only the keys not already present |
| PromptJsonPage.Merge | src/pages/PromptJson.jsx:137-140 | an object spread into another; it has no contract of its own: MergeGet and MergeKeys state its result |
| PromptJsonPage.PromptObjectKeys | src/pages/PromptJson.jsx:137-140 | the object's keys are `subject` first, then the distinct titles in first-occurrence order, with no key repeated |
| PromptJsonPage.PromptObjectValues | src/pages/PromptJson.jsx:137-140 | a title maps to its last field's value (a `subject` title overrides the subject); `subject` otherwise maps to the subject; other keys are absent |
| PromptJsonPage.PromptObject | src/pages/PromptJson.jsx:137-140 | the object `generate` builds; it has no contract of its own: PromptObjectKeys and PromptObjectValues state its keys and values |
| PromptJsonPage.PromptJson.constructor | src/pages/PromptJson.jsx:64-66 | the page starts with an empty subject, no fields and no result |
| PromptJsonPage.PromptJson.SetSubject | src/pages/PromptJson.jsx:339 | the subject input sets only the subject |
| PromptJsonPage.PromptJson.AddExtra | src/pages/PromptJson.jsx:84-90 | a new `Detail` field with an empty value is appended |
| PromptJsonPage.PromptJson.UpdateExtra | src/pages/PromptJson.jsx:101-102 | the fields become the update of the old fields |
| PromptJsonPage.PromptJson.RemoveExtra | src/pages/PromptJson.jsx:104-105 | the fields become the old fields without that id |
| PromptJsonPage.PromptJson.EditTitle | src/pages/PromptJson.jsx:116-121 | a non-blank answer sets the trimmed title of the field with that id; a cancelled or blank answer changes nothing |
| PromptJsonPage.PromptJson.Generate | src/pages/PromptJson.jsx:124-141 | a blank subject leaves the result as it was; otherwise the result is the prompt object |
| ColorPickerPage.GroupByCategory | src/pages/ColorPicker.jsx:84-90 | the `reduce` loop returns the specification grouping |
| ColorPickerPage.CategoriesSpec | src/pages/ColorPicker.jsx:84-90 | the groups' categories are distinct and are exactly the categories that occur |
| ColorPickerPage.GroupedStep | src/pages/ColorPicker.jsx:85-88 | one step appends the colour to its category's group, creating the group at the end when the category is new |
| ColorPickerPage.GroupSizes | src/pages/ColorPicker.jsx:84-90 | the groups together hold every colour exactly once |
| ColorPickerPage.OfCategoryMembers | src/pages/ColorPicker.jsx:84-90 | a group holds exactly the colours of its category |
| ColorPickerPage.CategoriesOf | src/pages/ColorPicker.jsx:84-90 | the keys of `groupedColors` in insertion order; it has no contract of its own: CategoriesSpec states them |
| ColorPickerPage.OfCategory | src/pages/ColorPicker.jsx:84-90 | the list one category collects; it has no contract of its own: OfCategoryMembers and GroupSizes state its content |
| ColorPickerPage.Grouped | src/pages/ColorPicker.jsx:84-90 | one group per category, in the categories' order of first appearance |
| ColorPickerPage.SwatchCategories | src/pages/ColorPicker.jsx:35-66 | the predefined swatches form the categories Primary, Neutral, Light and Dark, in that order |
| ColorPickerPage.SwatchesOfCategory | src/pages/ColorPicker.jsx:35-66 | each category holds its block of the predefined list, and any other category is empty |
| ColorPickerPage.SwatchGroups | src/pages/ColorPicker.jsx:35-90 | the rendered groups are those four blocks, of 9, 1, 10 and 10 swatches |
| ColorPickerPage.RgbReadoutOfHex | src/pages/ColorPicker.jsx:145 | for a `#` plus six hex digits, the RGB read-out prints the parsed colour's channels in decimal |
| ColorPickerPage.RgbReadout | src/pages/ColorPicker.jsx:145 | the `RGB:` read-out; it has no contract of its own: RgbReadoutOfHex states it for a `#` plus six hex digits |
| ColorPickerPage.RgbCopyText | src/pages/ColorPicker.jsx:223 | the text `Copy RGB` copies: `rgb(` + the read-out + `)`; it has no contract of its own |
| ColorPickerPage.HighlightCaseSensitive | src/pages/ColorPicker.jsx:174-176 | `#3182ce` denotes the same colour as Blue's `#3182CE` but does not highlight it |
| ColorPickerPage.Highlighted | src/pages/ColorPicker.jsx:174-176 | the `selectedColor === color.hex` test; it has no contract of its own: HighlightCaseSensitive and InitialSelection state it on concrete colours |
| ColorPickerPage.ColorPicker.constructor | src/pages/ColorPicker.jsx:26-27 | the page starts on `#3182CE`, Blue |
| ColorPickerPage.ColorPicker.HandleColorSelect | src/pages/ColorPicker.jsx:68-71 | selecting a swatch sets the colour and the name |
| ColorPickerPage.InitialSelection | src/pages/ColorPicker.jsx:26-41 | the initial colour is the Blue swatch, which is highlighted, and it parses to (49, 130, 206) |

## Left out

- `rgbToOklch` (colorUtils.js:84-109) uses `Math.cbrt`, `Math.sqrt`, `Math.atan2` and floating point. It is the parameter `oklchOf`, and its result is kept as three printed strings.
- The `Math.pow(x, 2.4)` gamma segment of `getContrastRatio` is the parameter `pow24`. The model only requires that it maps [0,1] into [0,1].
- IEEE-754 doubles. Arithmetic is exact over `real`, so a `Math.round` on a value within a rounding error of `.5` can differ from the browser's result. The concrete shade-500 lemmas rely on exact arithmetic.
- `toLowerCase`/`toUpperCase` are modelled on ASCII letters only. The values they are applied to here (hex strings, palette names) are treated the same.
- Clipboard writes, toasts, navigation, routing, the colour-mode hooks and all layout are not modelled. Neither are the `UIExamples` component, the upload and dashboard pages, `backend_test.py` and `color_test.js`.
- `JSON.stringify(json, null, 2)` in `generate` is not modelled: the result holds the object itself, as key/value pairs in enumeration order, not its JSON text.
- PromptJsonPage.PromptObject: a title that is an integer-like string, such as `10`, would be enumerated before `subject` by JavaScript. The model keeps insertion order for every key.
- PromptJsonPage.PromptJson.EditTitle: on an id that is missing, the source throws when reading `ex.title`. The model leaves the state unchanged, which is what the aborted handler leaves behind.
- `prompt()` and `Date.now()` are inputs: the answer and the new id are method arguments.
- ColorGeneratorPage.ColorGenerator.HandleColorChange: React runs the effect after render, and only when the colour actually changes. The handlers run the effect at once. The result is the same whenever the palette was already in step with the colour.
- ColorPickerPage.RgbCopyText: only the read-out inside it is proved (RgbReadoutOfHex). For a selection that is not a `#` plus six hex digits, `NaN` printing is modelled but nothing is proved about it.
- ColorPickerPage.Highlighted: the model does not prove that exactly one swatch is highlighted for each selection, or that the swatch hexes are distinct.
