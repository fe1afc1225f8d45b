/** The colour picker page: thirty named swatches grouped by category, the
    current selection and its RGB read-out. */
module ColorPickerPage {
  import opened JsText
  import opened ColorUtils

  datatype Swatch = Swatch(name: string, hex: string, category: string)

  /* ---------- the predefined swatches, category by category ---------- */

  const PrimarySwatches: seq<Swatch> := [
    Swatch("Red", "#E53E3E", "Primary"), Swatch("Orange", "#DD6B20", "Primary"),
    Swatch("Yellow", "#D69E2E", "Primary"), Swatch("Green", "#38A169", "Primary"),
    Swatch("Teal", "#319795", "Primary"), Swatch("Blue", "#3182CE", "Primary"),
    Swatch("Cyan", "#0BC5EA", "Primary"), Swatch("Purple", "#805AD5", "Primary"),
    Swatch("Pink", "#D53F8C", "Primary")]

  const NeutralSwatches: seq<Swatch> := [Swatch("Gray", "#718096", "Neutral")]

  const LightSwatches: seq<Swatch> := [
    Swatch("Light Red", "#FC8181", "Light"), Swatch("Light Orange", "#F6AD55", "Light"),
    Swatch("Light Yellow", "#F6E05E", "Light"), Swatch("Light Green", "#68D391", "Light"),
    Swatch("Light Teal", "#4FD1C7", "Light"), Swatch("Light Blue", "#63B3ED", "Light"),
    Swatch("Light Cyan", "#76E4F7", "Light"), Swatch("Light Purple", "#B794F6", "Light"),
    Swatch("Light Pink", "#F687B3", "Light"), Swatch("Light Gray", "#A0AEC0", "Light")]

  const DarkSwatches: seq<Swatch> := [
    Swatch("Dark Red", "#C53030", "Dark"), Swatch("Dark Orange", "#C05621", "Dark"),
    Swatch("Dark Yellow", "#B7791F", "Dark"), Swatch("Dark Green", "#2F855A", "Dark"),
    Swatch("Dark Teal", "#2C7A7B", "Dark"), Swatch("Dark Blue", "#2B6CB0", "Dark"),
    Swatch("Dark Cyan", "#0987A0", "Dark"), Swatch("Dark Purple", "#6B46C1", "Dark"),
    Swatch("Dark Pink", "#B83280", "Dark"), Swatch("Dark Gray", "#4A5568", "Dark")]

  /** `colorPalette`, in the order it is written. */
  const Swatches: seq<Swatch> := PrimarySwatches + NeutralSwatches + LightSwatches + DarkSwatches

  /* ---------- grouping ---------- */

  /** The categories in order of first appearance. */
  function CategoriesOf(xs: seq<Swatch>): seq<string>
    decreases |xs|
  {
    if xs == [] then []
    else
      var cs := CategoriesOf(xs[..|xs| - 1]);
      var c := xs[|xs| - 1].category;
      if c in cs then cs else cs + [c]
  }

  /** The swatches of one category, in list order. */
  function OfCategory(xs: seq<Swatch>, c: string): seq<Swatch>
    decreases |xs|
  {
    if xs == [] then []
    else OfCategory(xs[..|xs| - 1], c) + (if xs[|xs| - 1].category == c then [xs[|xs| - 1]] else [])
  }

  /** A category-keyed object of swatch lists, in key insertion order. */
  type Groups = seq<(string, seq<Swatch>)>

  /** The object `groupedColors` holds, as `Object.entries` lists it. */
  function Grouped(xs: seq<Swatch>): (gs: Groups)
    ensures |gs| == |CategoriesOf(xs)|
  {
    var cs := CategoriesOf(xs);
    seq(|cs|, i requires 0 <= i < |cs| => (cs[i], OfCategory(xs, cs[i])))
  }

  /** `acc[category]`: the position of the category's list, or `|gs|`
      when it has none yet. */
  function GroupIndex(gs: Groups, c: string): (j: nat)
    ensures j <= |gs|
    ensures j < |gs| ==> gs[j].0 == c
    ensures forall k :: 0 <= k < j ==> gs[k].0 != c
    decreases |gs|
  {
    if gs == [] then 0
    else if gs[0].0 == c then 0
    else GroupIndex(gs[1..], c) + 1
  }

  /** The `colorPalette.reduce` that fills `groupedColors`. */
  method GroupByCategory(colors: seq<Swatch>) returns (groups: Groups)
    ensures groups == Grouped(colors)
  {
    groups := [];
    for i := 0 to |colors|
      invariant groups == Grouped(colors[..i])
    {
      var color := colors[i];
      assert colors[..i + 1] == colors[..i] + [color];
      GroupedStep(colors[..i], color);
      var j := GroupIndex(groups, color.category);
      if j == |groups| {
        groups := groups + [(color.category, [])];
      }
      groups := groups[j := (color.category, groups[j].1 + [color])];
    }
    assert colors[..|colors|] == colors;
  }

  /** Each category is listed once, and exactly the categories that occur. */
  lemma {:induction false} CategoriesSpec(xs: seq<Swatch>)
    ensures NoRepeats(CategoriesOf(xs))
    ensures forall c :: c in CategoriesOf(xs) <==> exists i :: 0 <= i < |xs| && xs[i].category == c
    decreases |xs|
  {
    if xs != [] {
      var front := xs[..|xs| - 1];
      var x := xs[|xs| - 1];
      CategoriesSpec(front);
      var cs := CategoriesOf(front);
      forall c ensures c in CategoriesOf(xs) <==> exists i :: 0 <= i < |xs| && xs[i].category == c {
        if c in cs {
          var i :| 0 <= i < |front| && front[i].category == c;
          assert xs[i] == front[i];
        }
        if exists i :: 0 <= i < |xs| && xs[i].category == c {
          var i :| 0 <= i < |xs| && xs[i].category == c;
          if i < |front| {
            assert front[i] == xs[i];
          }
        }
      }
      if x.category !in cs {
        var r := cs + [x.category];
        forall i, j | 0 <= i < j < |r| ensures r[i] != r[j] {
          assert r[i] == cs[i];
          assert cs[i] in cs;
          if j < |cs| {
            assert r[j] == cs[j];
          }
        }
      }
    }
  }

  /** One step of the reduce: the swatch goes at the end of its category's
      list, which is created at the end of the object when it is new. */
  lemma GroupedStep(xs: seq<Swatch>, x: Swatch)
    ensures var gs := Grouped(xs);
      var j := GroupIndex(gs, x.category);
      var gs' := if j == |gs| then gs + [(x.category, [])] else gs;
      Grouped(xs + [x]) == gs'[j := (x.category, gs'[j].1 + [x])]
  {
    var gs := Grouped(xs);
    var j := GroupIndex(gs, x.category);
    GroupIndexCategory(xs, x.category);
    if j == |gs| {
      GroupedNew(xs, x);
    } else {
      CategoriesNoRepeats(xs);
      GroupedOld(xs, x, j);
    }
  }

  /** `acc[category]` finds the category's position among the categories
      seen so far, and finds none exactly when it has not been seen. */
  lemma GroupIndexCategory(xs: seq<Swatch>, c: string)
    ensures var j := GroupIndex(Grouped(xs), c);
      && (j == |Grouped(xs)| <==> c !in CategoriesOf(xs))
      && (j < |Grouped(xs)| ==> CategoriesOf(xs)[j] == c)
  {
    var gs := Grouped(xs);
    var cs := CategoriesOf(xs);
    assert forall k :: 0 <= k < |gs| ==> gs[k].0 == cs[k];
  }

  /** Each category is listed once. */
  lemma CategoriesNoRepeats(xs: seq<Swatch>)
    ensures NoRepeats(CategoriesOf(xs))
  {
    CategoriesSpec(xs);
  }

  /** A swatch of a new category opens a one-swatch list at the end. */
  lemma GroupedNew(xs: seq<Swatch>, x: Swatch)
    requires x.category !in CategoriesOf(xs)
    ensures Grouped(xs + [x]) == Grouped(xs) + [(x.category, [x])]
  {
    var ys := xs + [x];
    assert ys[..|ys| - 1] == xs;
    var cs := CategoriesOf(xs);
    var gs := Grouped(xs);
    var r := Grouped(ys);
    var t := gs + [(x.category, [x])];
    assert CategoriesOf(ys) == cs + [x.category];
    forall k | 0 <= k < |r| ensures r[k] == t[k] {
      if k < |gs| {
        assert cs[k] in cs;
        OfCategoryOther(xs, x, cs[k]);
      } else {
        NoneOfCategory(xs, x.category);
        OfCategorySnoc(xs, x, x.category);
      }
    }
    assert r == t;
  }

  /** A swatch of a listed category is appended to that category's list. */
  lemma GroupedOld(xs: seq<Swatch>, x: Swatch, j: nat)
    requires NoRepeats(CategoriesOf(xs))
    requires j < |CategoriesOf(xs)| && CategoriesOf(xs)[j] == x.category
    ensures j < |Grouped(xs)|
    ensures Grouped(xs + [x]) == Grouped(xs)[j := (x.category, Grouped(xs)[j].1 + [x])]
  {
    var ys := xs + [x];
    assert ys[..|ys| - 1] == xs;
    var cs := CategoriesOf(xs);
    var gs := Grouped(xs);
    var r := Grouped(ys);
    var t := gs[j := (x.category, gs[j].1 + [x])];
    assert cs[j] in cs;
    assert CategoriesOf(ys) == cs;
    forall k | 0 <= k < |r| ensures r[k] == t[k] {
      if k == j {
        OfCategorySnoc(xs, x, x.category);
      } else {
        assert cs[k] != cs[j];
        OfCategoryOther(xs, x, cs[k]);
      }
    }
    assert r == t;
  }

  /** Appending a swatch appends it to its own category's list only. */
  lemma OfCategorySnoc(xs: seq<Swatch>, x: Swatch, c: string)
    ensures OfCategory(xs + [x], c) == OfCategory(xs, c) + (if x.category == c then [x] else [])
  {
    var ys := xs + [x];
    assert ys[..|ys| - 1] == xs;
  }

  /** A swatch of another category leaves a list as it was. */
  lemma OfCategoryOther(xs: seq<Swatch>, x: Swatch, c: string)
    requires x.category != c
    ensures OfCategory(xs + [x], c) == OfCategory(xs, c)
  {
    OfCategorySnoc(xs, x, c);
    assert OfCategory(xs, c) + [] == OfCategory(xs, c);
  }

  /** A category that does not occur has an empty list. */
  lemma NoneOfCategory(xs: seq<Swatch>, c: string)
    requires c !in CategoriesOf(xs)
    ensures OfCategory(xs, c) == []
  {
    CategoriesSpec(xs);
    OfCategoryMembers(xs, c);
  }

  /** Sum of the list sizes of the groups. */
  function Total(gs: Groups): nat
    decreases |gs|
  {
    if gs == [] then 0 else Total(gs[..|gs| - 1]) + |gs[|gs| - 1].1|
  }

  lemma {:induction false} TotalUpdate(gs: Groups, j: nat, g: (string, seq<Swatch>))
    requires j < |gs|
    ensures Total(gs[j := g]) + |gs[j].1| == Total(gs) + |g.1|
    decreases |gs|
  {
    var hs := gs[j := g];
    if j < |gs| - 1 {
      assert hs[..|hs| - 1] == gs[..|gs| - 1][j := g];
      TotalUpdate(gs[..|gs| - 1], j, g);
    } else {
      assert hs[..|hs| - 1] == gs[..|gs| - 1];
    }
  }

  lemma TotalSnoc(gs: Groups, g: (string, seq<Swatch>))
    ensures Total(gs + [g]) == Total(gs) + |g.1|
  {
    assert (gs + [g])[..|gs|] == gs;
  }

  /** Grouping loses and duplicates nothing: the list sizes add up to the
      number of swatches. */
  lemma {:induction false} GroupSizes(xs: seq<Swatch>)
    ensures Total(Grouped(xs)) == |xs|
    decreases |xs|
  {
    if xs != [] {
      var front := xs[..|xs| - 1];
      var x := xs[|xs| - 1];
      GroupSizes(front);
      GroupedStep(front, x);
      assert front + [x] == xs;
      var gs := Grouped(front);
      var j := GroupIndex(gs, x.category);
      var gs' := if j == |gs| then gs + [(x.category, [])] else gs;
      if j == |gs| {
        TotalSnoc(gs, (x.category, []));
      }
      TotalUpdate(gs', j, (x.category, gs'[j].1 + [x]));
    }
  }

  /** A category's list holds exactly the swatches of that category. */
  lemma {:induction false} OfCategoryMembers(xs: seq<Swatch>, c: string)
    ensures forall s :: s in OfCategory(xs, c) <==> s in xs && s.category == c
    decreases |xs|
  {
    if xs != [] {
      OfCategoryMembers(xs[..|xs| - 1], c);
      assert xs == xs[..|xs| - 1] + [xs[|xs| - 1]];
    }
  }

  lemma {:induction false} OfCategoryAppend(a: seq<Swatch>, b: seq<Swatch>, c: string)
    ensures OfCategory(a + b, c) == OfCategory(a, c) + OfCategory(b, c)
    decreases |b|
  {
    if b == [] {
      assert a + b == a;
    } else {
      var b' := b[..|b| - 1];
      assert (a + b)[..|a + b| - 1] == a + b';
      OfCategoryAppend(a, b', c);
    }
  }

  predicate AllOf(b: seq<Swatch>, c: string) {
    forall i :: 0 <= i < |b| ==> b[i].category == c
  }

  /** A block of one category is that category's whole list and no other's. */
  lemma {:induction false} BlockOfCategory(b: seq<Swatch>, c: string, k: string)
    requires AllOf(b, c)
    ensures OfCategory(b, c) == b
    ensures k != c ==> OfCategory(b, k) == []
    decreases |b|
  {
    if b != [] {
      BlockOfCategory(b[..|b| - 1], c, k);
      assert b[..|b| - 1] + [b[|b| - 1]] == b;
    }
  }

  /** Appending a non-empty block of one category adds that category once. */
  lemma {:induction false} BlockCategories(a: seq<Swatch>, b: seq<Swatch>, c: string)
    requires b != [] && AllOf(b, c)
    ensures CategoriesOf(a + b) == if c in CategoriesOf(a) then CategoriesOf(a) else CategoriesOf(a) + [c]
    decreases |b|
  {
    var b' := b[..|b| - 1];
    assert (a + b)[..|a + b| - 1] == a + b';
    if b' == [] {
      assert a + b' == a;
    } else {
      BlockCategories(a, b', c);
    }
  }

  lemma SwatchBlocks()
    ensures AllOf(PrimarySwatches, "Primary") && AllOf(NeutralSwatches, "Neutral")
    ensures AllOf(LightSwatches, "Light") && AllOf(DarkSwatches, "Dark")
  {
  }

  /** The categories appear in the order Primary, Neutral, Light, Dark. */
  lemma SwatchCategories()
    ensures CategoriesOf(Swatches) == ["Primary", "Neutral", "Light", "Dark"]
  {
    SwatchBlocks();
    FourBlockCategories(PrimarySwatches, NeutralSwatches, LightSwatches, DarkSwatches,
                        "Primary", "Neutral", "Light", "Dark");
  }

  /** Each category's list is the block of swatches written under it. */
  lemma SwatchesOfCategory(k: string)
    ensures OfCategory(Swatches, k) ==
      if k == "Primary" then PrimarySwatches else if k == "Neutral" then NeutralSwatches
      else if k == "Light" then LightSwatches else if k == "Dark" then DarkSwatches else []
  {
    SwatchBlocks();
    FourBlockOfCategory(PrimarySwatches, NeutralSwatches, LightSwatches, DarkSwatches, k);
  }

  /** Four non-empty blocks of four different categories, written one after
      the other, give those categories in order. */
  lemma FourBlockCategories(p: seq<Swatch>, n: seq<Swatch>, l: seq<Swatch>, d: seq<Swatch>,
                            c1: string, c2: string, c3: string, c4: string)
    requires p != [] && n != [] && l != [] && d != []
    requires AllOf(p, c1) && AllOf(n, c2) && AllOf(l, c3) && AllOf(d, c4)
    requires c1 != c2 && c1 != c3 && c1 != c4 && c2 != c3 && c2 != c4 && c3 != c4
    ensures CategoriesOf(p + n + l + d) == [c1, c2, c3, c4]
  {
    TwoBlockCategories(p, n, c1, c2);
    ThirdBlock(p + n, l, c1, c2, c3);
    FourthBlock(p + n + l, d, c1, c2, c3, c4);
  }

  /** Two non-empty blocks of two different categories. */
  lemma TwoBlockCategories(p: seq<Swatch>, n: seq<Swatch>, c1: string, c2: string)
    requires p != [] && n != [] && AllOf(p, c1) && AllOf(n, c2) && c1 != c2
    ensures CategoriesOf(p + n) == [c1, c2]
  {
    OneBlock(p, c1);
    BlockAfter(p, n, c2, [c1]);
  }

  /** One non-empty block has its one category. */
  lemma OneBlock(p: seq<Swatch>, c1: string)
    requires p != [] && AllOf(p, c1)
    ensures CategoriesOf(p) == [c1]
  {
    assert [] + p == p;
    BlockAfter([], p, c1, []);
  }

  /** A third block after two categories. */
  lemma ThirdBlock(a: seq<Swatch>, l: seq<Swatch>, c1: string, c2: string, c3: string)
    requires CategoriesOf(a) == [c1, c2] && l != [] && AllOf(l, c3) && c3 != c1 && c3 != c2
    ensures CategoriesOf(a + l) == [c1, c2, c3]
  {
    BlockAfter(a, l, c3, [c1, c2]);
  }

  /** A fourth block after three categories. */
  lemma FourthBlock(a: seq<Swatch>, d: seq<Swatch>, c1: string, c2: string, c3: string, c4: string)
    requires CategoriesOf(a) == [c1, c2, c3] && d != [] && AllOf(d, c4)
    requires c4 != c1 && c4 != c2 && c4 != c3
    ensures CategoriesOf(a + d) == [c1, c2, c3, c4]
  {
    BlockAfter(a, d, c4, [c1, c2, c3]);
  }

  /** A non-empty block of a new category adds that category at the end. */
  lemma BlockAfter(a: seq<Swatch>, b: seq<Swatch>, c: string, cs: seq<string>)
    requires CategoriesOf(a) == cs && c !in cs && b != [] && AllOf(b, c)
    ensures CategoriesOf(a + b) == cs + [c]
  {
    BlockCategories(a, b, c);
  }

  /** In four such blocks each category's list is its own block. */
  lemma FourBlockOfCategory(p: seq<Swatch>, n: seq<Swatch>, l: seq<Swatch>, d: seq<Swatch>, k: string)
    requires AllOf(p, "Primary") && AllOf(n, "Neutral") && AllOf(l, "Light") && AllOf(d, "Dark")
    ensures OfCategory(p + n + l + d, k) ==
      if k == "Primary" then p else if k == "Neutral" then n
      else if k == "Light" then l else if k == "Dark" then d else []
  {
    OfCategoryAppend(p + n + l, d, k);
    OfCategoryAppend(p + n, l, k);
    OfCategoryAppend(p, n, k);
    BlockOfCategory(p, "Primary", k);
    BlockOfCategory(n, "Neutral", k);
    BlockOfCategory(l, "Light", k);
    BlockOfCategory(d, "Dark", k);
  }

  /** The page's four groups, in order, with 9, 1, 10 and 10 of the 30
      swatches. */
  lemma SwatchGroups()
    ensures Grouped(Swatches) == [("Primary", PrimarySwatches), ("Neutral", NeutralSwatches),
                                  ("Light", LightSwatches), ("Dark", DarkSwatches)]
    ensures |PrimarySwatches| == 9 && |NeutralSwatches| == 1
    ensures |LightSwatches| == 10 && |DarkSwatches| == 10 && |Swatches| == 30
  {
    SwatchCategories();
    SwatchesOfCategory("Primary");
    SwatchesOfCategory("Neutral");
    SwatchesOfCategory("Light");
    SwatchesOfCategory("Dark");
  }

  /* ---------- selection ---------- */

  /** The RGB read-out `parseInt(selectedColor.slice(1, 3), 16), …`. */
  function RgbReadout(selected: string): string {
    NumberText(ParseIntHex(Slice(selected, 1, 3))) + ", "
      + NumberText(ParseIntHex(Slice(selected, 3, 5))) + ", "
      + NumberText(ParseIntHex(Slice(selected, 5, 7)))
  }

  /** The text the "Copy RGB" button copies. */
  function RgbCopyText(selected: string): string {
    "rgb(" + RgbReadout(selected) + ")"
  }

  /** For a `#`-prefixed six-digit selection the read-out prints the same
      channels as the colour engine's parser. */
  lemma RgbReadoutOfHex(selected: string)
    requires |selected| == 7 && selected[0] == '#' && AllHex(selected[1..])
    ensures var c := HexToRgb(selected).value;
      RgbReadout(selected) == Decimal(c.r) + ", " + Decimal(c.g) + ", " + Decimal(c.b)
  {
    var d := selected[1..];
    assert Slice(selected, 1, 3) == d[0..2];
    assert Slice(selected, 3, 5) == d[2..4];
    assert Slice(selected, 5, 7) == d[4..6];
    PairIsParseInt(d[0..2]);
    PairIsParseInt(d[2..4]);
    PairIsParseInt(d[4..6]);
  }

  /** A swatch tile is highlighted when its hex string is the selection,
      character for character. */
  predicate Highlighted(selected: string, s: Swatch) {
    selected == s.hex
  }

  /** The comparison is case-sensitive: the same colour written in lower
      case highlights nothing. */
  lemma HighlightCaseSensitive()
    ensures HexToRgb("#3182ce") == HexToRgb(Swatches[5].hex)
    ensures !Highlighted("#3182ce", Swatches[5])
  {
    BlueSwatch();
    BlueParses(Swatches[5].hex);
    LowerBlueParses("#3182ce");
    assert "#3182ce"[5] != Swatches[5].hex[5];
  }

  /** Swatch 5 of `colorPalette` is Blue. */
  lemma BlueSwatch()
    ensures Swatches[5] == Swatch("Blue", "#3182CE", "Primary")
  {
    assert Swatches[5] == PrimarySwatches[5];
  }

  /** The lower-case spelling of Blue parses to the same colour. */
  lemma LowerBlueParses(s: string)
    requires s == "#3182ce"
    ensures HexToRgb(s) == Some(Rgb(49, 130, 206))
  {
    assert s[1..] == "3182ce";
  }

  class ColorPicker {
    var selectedColor: string
    var selectedColorName: string

    constructor ()
      ensures selectedColor == "#3182CE" && selectedColorName == "Blue"
    {
      selectedColor := "#3182CE";
      selectedColorName := "Blue";
    }

    /** `handleColorSelect(color, name)`. */
    method HandleColorSelect(color: string, name: string)
      modifies this
      ensures selectedColor == color && selectedColorName == name
    {
      selectedColor := color;
      selectedColorName := name;
    }
  }

  /** The initial selection is the 'Blue' swatch, which is highlighted, and
      its read-out prints the channels 49, 130 and 206. */
  lemma InitialSelection(s: string)
    requires s == "#3182CE"
    ensures Swatches[5] == Swatch("Blue", s, "Primary")
    ensures Highlighted(s, Swatches[5])
    ensures HexToRgb(s) == Some(Rgb(49, 130, 206))
  {
    BlueParses(s);
  }

  lemma BlueParses(s: string)
    requires s == "#3182CE"
    ensures |s| == 7 && s[0] == '#' && AllHex(s[1..])
    ensures HexToRgb(s) == Some(Rgb(49, 130, 206))
  {
    assert s[1..] == "3182CE";
  }
}
