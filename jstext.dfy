/** The pieces of JavaScript string and number semantics that the colour
    engine and its views rely on: hexadecimal digits, ASCII case mapping,
    the `\s` whitespace class and `trim`, `Number.prototype.toString(radix)`
    for integers, `parseInt(s, 16)`, `slice` and `join`. */
module JsText {

  datatype Option<T> = None | Some(value: T)

  /* ---------- digits ---------- */

  /** The characters `[0-9A-Fa-f]`, as matched by `[a-f\d]` under the `i` flag. */
  predicate IsHexDigit(c: char) {
    ('0' <= c <= '9') || ('a' <= c <= 'f') || ('A' <= c <= 'F')
  }

  predicate IsLowerHexDigit(c: char) {
    ('0' <= c <= '9') || ('a' <= c <= 'f')
  }

  predicate IsUpperHexDigit(c: char) {
    ('0' <= c <= '9') || ('A' <= c <= 'F')
  }

  predicate AllHex(s: string) {
    forall i :: 0 <= i < |s| ==> IsHexDigit(s[i])
  }

  function HexVal(c: char): (v: nat)
    requires IsHexDigit(c)
    ensures v < 16
  {
    if '0' <= c <= '9' then c as int - '0' as int
    else if 'a' <= c <= 'f' then c as int - 'a' as int + 10
    else c as int - 'A' as int + 10
  }

  /** The digit that `toString(radix)` prints for `d`: always lower case. */
  function DigitChar(d: nat): (c: char)
    requires d < 16
  {
    if d < 10 then ('0' as int + d) as char else ('a' as int + d - 10) as char
  }

  /** A printed digit is a lower-case digit that reads back as itself. */
  lemma DigitCharValue(d: nat)
    requires d < 16
    ensures IsLowerHexDigit(DigitChar(d)) && IsHexDigit(DigitChar(d))
    ensures HexVal(DigitChar(d)) == d
  {
  }

  /* ---------- case mapping (ASCII letters only) ---------- */

  function ToLowerChar(c: char): char {
    if 'A' <= c <= 'Z' then (c as int + 32) as char else c
  }

  function ToUpperChar(c: char): char {
    if 'a' <= c <= 'z' then (c as int - 32) as char else c
  }

  /** `String.prototype.toLowerCase` on ASCII letters. */
  function ToLower(s: string): (r: string)
    ensures |r| == |s|
  {
    seq(|s|, i requires 0 <= i < |s| => ToLowerChar(s[i]))
  }

  /** `String.prototype.toUpperCase` on ASCII letters. */
  function ToUpper(s: string): (r: string)
    ensures |r| == |s|
  {
    seq(|s|, i requires 0 <= i < |s| => ToUpperChar(s[i]))
  }

  /** Case mapping works character by character. */
  lemma ToLowerAppend(a: string, b: string)
    ensures ToLower(a + b) == ToLower(a) + ToLower(b)
  {
  }

  lemma ToUpperAppend(a: string, b: string)
    ensures ToUpper(a + b) == ToUpper(a) + ToUpper(b)
  {
  }

  /** Upper-casing a hexadecimal digit keeps its value. */
  lemma UpperDigit(c: char)
    requires IsHexDigit(c)
    ensures IsUpperHexDigit(ToUpperChar(c)) && IsHexDigit(ToUpperChar(c))
    ensures HexVal(ToUpperChar(c)) == HexVal(c)
  {
  }

  lemma DigitCharIsLowered(c: char)
    requires IsHexDigit(c)
    ensures DigitChar(HexVal(c)) == ToLowerChar(c)
  {
  }

  /* ---------- whitespace and trim ---------- */

  /** The characters of the regular-expression class `\s`; the same set is
      removed by `String.prototype.trim` and skipped by `parseInt`. */
  predicate IsJsWhitespace(c: char) {
    var n := c as int;
    n == 9 || n == 10 || n == 11 || n == 12 || n == 13 || n == 32 || n == 0xA0 ||
    n == 0x1680 || (0x2000 <= n <= 0x200A) || n == 0x2028 || n == 0x2029 ||
    n == 0x202F || n == 0x205F || n == 0x3000 || n == 0xFEFF
  }

  predicate NoWhitespace(s: string) {
    forall i :: 0 <= i < |s| ==> !IsJsWhitespace(s[i])
  }

  /** The end of the whitespace run that starts at `i`. */
  function WhitespaceEnd(s: string, i: nat): (j: nat)
    requires i <= |s|
    ensures i <= j <= |s|
    ensures forall k :: i <= k < j ==> IsJsWhitespace(s[k])
    ensures j == |s| || !IsJsWhitespace(s[j])
    decreases |s| - i
  {
    if i < |s| && IsJsWhitespace(s[i]) then WhitespaceEnd(s, i + 1) else i
  }

  /** The start of the whitespace run that ends at `j`. */
  function WhitespaceStart(s: string, j: nat): (i: nat)
    requires j <= |s|
    ensures i <= j
    ensures forall k :: i <= k < j ==> IsJsWhitespace(s[k])
    ensures i == 0 || !IsJsWhitespace(s[i - 1])
  {
    if j > 0 && IsJsWhitespace(s[j - 1]) then WhitespaceStart(s, j - 1) else j
  }

  /** Drops leading whitespace. */
  function TrimStart(s: string): (r: string)
    ensures |r| <= |s| && forall i :: 0 <= i < |r| ==> r[i] == s[|s| - |r| + i]
    ensures r == [] || !IsJsWhitespace(r[0])
    ensures forall i :: 0 <= i < |s| - |r| ==> IsJsWhitespace(s[i])
  {
    s[WhitespaceEnd(s, 0)..]
  }

  /** Drops trailing whitespace. */
  function TrimEnd(s: string): (r: string)
    ensures |r| <= |s| && r == s[..|r|]
    ensures r == [] || !IsJsWhitespace(r[|r| - 1])
    ensures forall i :: |r| <= i < |s| ==> IsJsWhitespace(s[i])
  {
    s[..WhitespaceStart(s, |s|)]
  }

  /** `String.prototype.trim`: the part of `s` from the end of its leading
      whitespace run, with only whitespace left out after it. */
  function Trim(s: string): (r: string)
    ensures r == [] || (!IsJsWhitespace(r[0]) && !IsJsWhitespace(r[|r| - 1]))
    ensures WhitespaceEnd(s, 0) + |r| <= |s| && r == s[WhitespaceEnd(s, 0)..WhitespaceEnd(s, 0) + |r|]
    ensures forall k :: 0 <= k < WhitespaceEnd(s, 0) ==> IsJsWhitespace(s[k])
    ensures forall k :: WhitespaceEnd(s, 0) + |r| <= k < |s| ==> IsJsWhitespace(s[k])
  {
    TrimParts(s);
    TrimEnd(TrimStart(s))
  }

  /** Trimming the end after the start keeps an infix of `s` that begins
      where the leading whitespace ends, followed in `s` by whitespace only. */
  lemma TrimParts(s: string)
    ensures var a := WhitespaceEnd(s, 0); var r := TrimEnd(TrimStart(s));
      && a + |r| <= |s| && r == s[a..a + |r|]
      && forall k :: a + |r| <= k < |s| ==> IsJsWhitespace(s[k])
  {
    var a := WhitespaceEnd(s, 0);
    var t := TrimStart(s);
    var r := TrimEnd(t);
    DropTake(s, a, t, r);
    WhitespaceAfter(s, a, t, |r|);
  }

  /** A prefix of `s[a..]` is an infix of `s` starting at `a`. */
  lemma DropTake(s: string, a: nat, t: string, r: string)
    requires a <= |s| && t == s[a..] && |r| <= |t| && r == t[..|r|]
    ensures a + |r| <= |s| && r == s[a..a + |r|]
  {
  }

  /** Whitespace after position `m` of `s[a..]` is whitespace after `a + m` in `s`. */
  lemma WhitespaceAfter(s: string, a: nat, t: string, m: nat)
    requires a <= |s| && t == s[a..] && m <= |t|
    requires forall i :: m <= i < |t| ==> IsJsWhitespace(t[i])
    ensures forall k :: a + m <= k < |s| ==> IsJsWhitespace(s[k])
  {
    forall k | a + m <= k < |s| ensures IsJsWhitespace(s[k]) {
      assert s[k] == t[k - a];
    }
  }

  /** A string trims to nothing exactly when it is all whitespace. */
  lemma TrimEmptyIffBlank(s: string)
    ensures Trim(s) == [] <==> (forall i :: 0 <= i < |s| ==> IsJsWhitespace(s[i]))
  {
    var t := TrimStart(s);
    if t != [] {
      assert t[0] == s[|s| - |t|];
    }
  }

  /** Trimming is idempotent. */
  lemma TrimIdempotent(s: string)
    ensures Trim(Trim(s)) == Trim(s)
  {
    var r := Trim(s);
    assert TrimStart(r) == r;
    assert TrimEnd(r) == r;
  }

  /* ---------- Number.prototype.toString(radix) on integers ---------- */

  /** The digits of `n` in base `radix`, most significant first, no leading zero. */
  function Digits(n: nat, radix: nat): (r: string)
    requires 2 <= radix <= 16
    ensures |r| >= 1
    decreases n
  {
    if n < radix then [DigitChar(n)] else Digits(n / radix, radix) + [DigitChar(n % radix)]
  }

  /** `n.toString(radix)` for an integer-valued number `n`. */
  function ToRadixString(n: int, radix: nat): (r: string)
    requires 2 <= radix <= 16
    ensures |r| >= 1
  {
    if n < 0 then "-" + Digits(-n, radix) else Digits(n, radix)
  }

  /** `${n}` for an integer-valued number `n`. */
  function Decimal(n: int): string {
    ToRadixString(n, 10)
  }

  /** The value of a non-empty string of digits, most significant first. */
  function DigitsValue(s: string, radix: nat): nat
    requires 2 <= radix <= 16
    requires forall i :: 0 <= i < |s| ==> IsHexDigit(s[i])
  {
    if s == [] then 0 else DigitsValue(s[..|s| - 1], radix) * radix + HexVal(s[|s| - 1])
  }

  /** Lower-case digits, each below the radix. */
  predicate DigitsBelow(s: string, radix: nat) {
    forall i :: 0 <= i < |s| ==> IsHexDigit(s[i]) && IsLowerHexDigit(s[i]) && HexVal(s[i]) < radix
  }

  lemma DigitsBelowSnoc(front: string, c: char, radix: nat)
    requires DigitsBelow(front, radix) && IsLowerHexDigit(c) && HexVal(c) < radix
    ensures DigitsBelow(front + [c], radix)
  {
    var d := front + [c];
    forall i | 0 <= i < |d| ensures IsLowerHexDigit(d[i]) && HexVal(d[i]) < radix {
      if i < |front| {
        assert d[i] == front[i];
      }
    }
  }

  /** Every hexadecimal digit printed is a lower-case digit. */
  lemma {:induction false} DigitsAreDigits(n: nat)
    ensures DigitsBelow(Digits(n, 16), 16)
    decreases n
  {
    if n < 16 {
      DigitCharValue(n);
      assert Digits(n, 16) == [DigitChar(n)];
    } else {
      DigitCharValue(n % 16);
      DigitsAreDigits(n / 16);
      DigitsBelowSnoc(Digits(n / 16, 16), DigitChar(n % 16), 16);
    }
  }

  /** Printing in hexadecimal then reading the digits back gives the number. */
  lemma {:induction false} HexDigitsRoundTrip(n: nat)
    ensures AllHex(Digits(n, 16)) && DigitsValue(Digits(n, 16), 16) == n
    decreases n
  {
    DigitsAreDigits(n);
    if n < 16 {
      DigitCharValue(n);
      DigitsValueSnoc([], DigitChar(n), 16);
    } else {
      HexDigitsRoundTrip(n / 16);
      DigitCharValue(n % 16);
      DigitsValueSnoc(Digits(n / 16, 16), DigitChar(n % 16), 16);
    }
  }

  /** Appending a digit multiplies the value by the radix and adds the digit. */
  lemma DigitsValueSnoc(front: string, c: char, radix: nat)
    requires 2 <= radix <= 16 && AllHex(front) && IsHexDigit(c)
    ensures AllHex(front + [c])
    ensures DigitsValue(front + [c], radix) == DigitsValue(front, radix) * radix + HexVal(c)
  {
    assert (front + [c])[..|front|] == front;
  }

  /** The first hexadecimal digit printed is a zero only for zero itself. */
  lemma {:induction false} DigitsLeadingZero(n: nat)
    ensures Digits(n, 16)[0] == '0' <==> n == 0
    decreases n
  {
    if n < 16 {
      DigitCharValue(n);
      assert Digits(n, 16)[0] == DigitChar(n);
    } else {
      DigitsLeadingZero(n / 16);
      assert Digits(n, 16)[0] == Digits(n / 16, 16)[0];
    }
  }


  /* ---------- two-digit hexadecimal ---------- */

  /** The two lower-case hexadecimal digits of a byte, zero-padded. */
  function ByteHex(v: nat): (r: string)
    requires v < 256
    ensures |r| == 2
  {
    [DigitChar(v / 16), DigitChar(v % 16)]
  }

  /** The padded pair is made of lower-case digits and reads back as `v`. */
  lemma ByteHexValue(v: nat)
    requires v < 256
    ensures AllHex(ByteHex(v))
    ensures IsLowerHexDigit(ByteHex(v)[0]) && IsLowerHexDigit(ByteHex(v)[1])
    ensures 16 * HexVal(ByteHex(v)[0]) + HexVal(ByteHex(v)[1]) == v
  {
    DigitCharValue(v / 16);
    DigitCharValue(v % 16);
  }

  /** A number `n = m * 256 + v` with `m >= 1` prints as the digits of `m`
      followed by the two padded digits of `v`. */
  lemma DigitsAppendByte(n: nat, m: nat, v: nat)
    requires m >= 1 && v < 256 && n == m * 256 + v
    ensures Digits(n, 16) == Digits(m, 16) + ByteHex(v)
  {
    assert n / 16 == m * 16 + v / 16 && n % 16 == v % 16;
    assert (m * 16 + v / 16) / 16 == m && (m * 16 + v / 16) % 16 == v / 16;
  }

  /* ---------- parseInt(s, 16) ---------- */

  /** The end of the run of hexadecimal digits that starts at `i`. */
  function HexRunEnd(s: string, i: nat): (j: nat)
    requires i <= |s|
    ensures i <= j <= |s|
    ensures forall k :: i <= k < j ==> IsHexDigit(s[k])
    ensures j == |s| || !IsHexDigit(s[j])
    ensures (forall k :: i <= k < |s| ==> IsHexDigit(s[k])) ==> j == |s|
    decreases |s| - i
  {
    if i < |s| && IsHexDigit(s[i]) then HexRunEnd(s, i + 1) else i
  }

  /** Where the digits start once an optional sign at `i` is skipped. */
  function AfterSign(s: string, i: nat): (j: nat)
    requires i <= |s|
    ensures i <= j <= |s|
  {
    if i < |s| && (s[i] == '+' || s[i] == '-') then i + 1 else i
  }

  /** Where the digits start once an optional `0x`/`0X` at `j` is skipped. */
  function AfterRadixPrefix(s: string, j: nat): (k: nat)
    requires j <= |s|
    ensures j <= k <= |s|
  {
    if j + 1 < |s| && s[j] == '0' && (s[j + 1] == 'x' || s[j + 1] == 'X') then j + 2 else j
  }

  /** `parseInt(s, 16)`: `None` stands for `NaN`. Leading whitespace is
      skipped, one sign is accepted, a `0x`/`0X` prefix is dropped, and the
      longest run of hexadecimal digits that follows is read. */
  function ParseIntHex(s: string): Option<int> {
    var i := WhitespaceEnd(s, 0);
    var negative := i < |s| && s[i] == '-';
    var k := AfterRadixPrefix(s, AfterSign(s, i));
    var e := HexRunEnd(s, k);
    if e == k then None
    else
      var v := DigitsValue(s[k..e], 16) as int;
      Some(if negative then -v else v)
  }

  /** A non-empty string of hexadecimal digits reads as its value. */
  lemma ParseIntHexOfDigits(s: string)
    requires s != [] && AllHex(s)
    ensures ParseIntHex(s) == Some(DigitsValue(s, 16))
  {
    assert IsHexDigit(s[0]);
    assert WhitespaceEnd(s, 0) == 0;
    assert AfterSign(s, 0) == 0;
    assert |s| > 1 ==> IsHexDigit(s[1]);
    assert AfterRadixPrefix(s, 0) == 0;
    assert s[0..|s|] == s;
  }

  /** A minus sign before hexadecimal digits negates their value. */
  lemma ParseIntHexOfNegated(d: string)
    requires d != [] && AllHex(d)
    ensures ParseIntHex("-" + d) == Some(-(DigitsValue(d, 16) as int))
  {
    var s := "-" + d;
    NegatedScan(s, d);
    assert s[0] == '-';
  }

  /** Where each stage of the scan ends on `-` followed by digits. */
  lemma NegatedScan(s: string, d: string)
    requires d != [] && AllHex(d) && s == "-" + d
    ensures WhitespaceEnd(s, 0) == 0 && AfterSign(s, 0) == 1
    ensures AfterRadixPrefix(s, 1) == 1 && HexRunEnd(s, 1) == |s| && s[1..|s|] == d
  {
    assert s[0] == '-';
    assert forall k :: 1 <= k < |s| ==> s[k] == d[k - 1];
    assert |s| > 2 ==> IsHexDigit(s[2]);
    assert s[1..|s|] == d;
  }

  /** `parseInt(n.toString(16), 16)` gives back every integer `n`. */
  lemma ParseIntOfToString(n: int)
    ensures ParseIntHex(ToRadixString(n, 16)) == Some(n)
  {
    var m := if n < 0 then -n else n;
    HexDigitsRoundTrip(m);
    if n < 0 {
      ParseIntHexOfNegated(Digits(m, 16));
    } else {
      ParseIntHexOfDigits(Digits(m, 16));
    }
  }

  /** Two hexadecimal digits read as `16 * high + low`. */
  lemma ParseHexPair(s: string)
    requires |s| == 2 && AllHex(s)
    ensures ParseIntHex(s) == Some(16 * HexVal(s[0]) + HexVal(s[1]))
  {
    ParseIntHexOfDigits(s);
    PairDigitsValue(s);
  }

  /** The base-16 value of two digits. */
  lemma PairDigitsValue(s: string)
    requires |s| == 2 && AllHex(s)
    ensures DigitsValue(s, 16) == 16 * HexVal(s[0]) + HexVal(s[1])
  {
    DigitsValueSnoc([], s[0], 16);
    DigitsValueSnoc([s[0]], s[1], 16);
    assert [s[0]] + [s[1]] == s;
  }

  /** `${n}` for a number that may be `NaN`. */
  function NumberText(n: Option<int>): string {
    match n
    case None => "NaN"
    case Some(v) => Decimal(v)
  }

  /* ---------- slice and join ---------- */

  /** `s.slice(start, end)` for non-negative bounds. */
  function Slice(s: string, start: nat, end: nat): (r: string)
    ensures start <= end <= |s| ==> r == s[start..end]
  {
    var from := if start < |s| then start else |s|;
    var to := if end < |s| then end else |s|;
    if from < to then s[from..to] else []
  }

  /** `lines.join(sep)`. */
  function Join(lines: seq<string>, sep: string): string {
    if lines == [] then []
    else if |lines| == 1 then lines[0]
    else lines[0] + sep + Join(lines[1..], sep)
  }

  /** Splits `s` at every newline, the inverse of joining with `"\n"`. */
  function SplitLines(s: string): (r: seq<string>)
    ensures |r| >= 1
  {
    if s == [] then [[]]
    else if s[0] == '\n' then [[]] + SplitLines(s[1..])
    else var rest := SplitLines(s[1..]); [[s[0]] + rest[0]] + rest[1..]
  }

  predicate NoNewline(s: string) {
    '\n' !in s
  }

  /** Decimal numerals are made of digits and a sign only. */
  lemma {:induction false} DecimalDigitsNoNewline(n: nat)
    ensures NoNewline(Digits(n, 10))
    decreases n
  {
    if n >= 10 {
      DecimalDigitsNoNewline(n / 10);
      DigitCharValue(n % 10);
    } else {
      DigitCharValue(n);
    }
  }

  lemma DecimalNoNewline(n: int)
    ensures NoNewline(Decimal(n))
  {
    DecimalDigitsNoNewline(if n < 0 then -n else n);
  }

  lemma {:induction false} SplitNoNewline(s: string, t: string)
    requires NoNewline(s)
    ensures SplitLines(s + t) == [s + SplitLines(t)[0]] + SplitLines(t)[1..]
    decreases |s|
  {
    if s != [] {
      assert (s + t)[0] == s[0];
      assert (s + t)[1..] == s[1..] + t;
      SplitNoNewline(s[1..], t);
      assert [s[0]] + (s[1..] + SplitLines(t)[0]) == s + SplitLines(t)[0];
    } else {
      var r := SplitLines(t);
      assert s + t == t;
      assert s + r[0] == r[0];
      assert [r[0]] + r[1..] == r;
    }
  }

  /** Joining lines that hold no newline with `"\n"` and splitting the text
      again gives back the same lines: one line of text per element. */
  lemma {:induction false} JoinSplit(lines: seq<string>)
    requires |lines| >= 1
    requires forall i :: 0 <= i < |lines| ==> NoNewline(lines[i])
    ensures SplitLines(Join(lines, "\n")) == lines
    decreases |lines|
  {
    if |lines| == 1 {
      SplitNoNewline(lines[0], []);
      assert lines[0] + [] == lines[0];
      assert SplitLines([]) == [[]];
      assert [lines[0]] == lines;
    } else {
      var rest := Join(lines[1..], "\n");
      JoinSplit(lines[1..]);
      assert Join(lines, "\n") == lines[0] + ("\n" + rest);
      SplitNoNewline(lines[0], "\n" + rest);
      assert ("\n" + rest)[0] == '\n';
      assert ("\n" + rest)[1..] == rest;
      assert SplitLines("\n" + rest) == [[]] + SplitLines(rest);
      assert lines[0] + [] == lines[0];
      assert [lines[0]] + lines[1..] == lines;
    }
  }

  /** The first `i + 1` elements are the first `i` followed by element `i`. */
  lemma TakeSnoc<T>(p: seq<T>, i: nat, e: T)
    requires i < |p| && p[i] == e
    ensures p[..i + 1] == p[..i] + [e]
  {
    assert p[..i + 1] == p[..i] + [p[i]];
  }

  /** No string occurs twice in the list. */
  predicate NoRepeats(ks: seq<string>) {
    forall i, j :: 0 <= i < j < |ks| ==> ks[i] != ks[j]
  }

  /** `a` is `b` with some elements left out. */
  predicate IsSubsequence<T(==)>(a: seq<T>, b: seq<T>)
    decreases |b|
  {
    if a == [] then true
    else if b == [] then false
    else if a[|a| - 1] == b[|b| - 1] then IsSubsequence(a[..|a| - 1], b[..|b| - 1])
    else IsSubsequence(a, b[..|b| - 1])
  }

  /** A subsequence of `b` is also one of `b + [x]`. */
  lemma {:induction false} SubsequenceExtend<T>(a: seq<T>, b: seq<T>, x: T)
    requires IsSubsequence(a, b)
    ensures IsSubsequence(a, b + [x])
    decreases |b|, 1
  {
    var b' := b + [x];
    assert b'[..|b'| - 1] == b;
    if a != [] && a[|a| - 1] == x {
      SubsequenceShrink(a, b);
    }
  }

  /** Dropping the last element of a subsequence keeps it a subsequence. */
  lemma {:induction false} SubsequenceShrink<T>(a: seq<T>, b: seq<T>)
    requires a != [] && IsSubsequence(a, b)
    ensures IsSubsequence(a[..|a| - 1], b)
    decreases |b|, 0
  {
    var a' := a[..|a| - 1];
    var b' := b[..|b| - 1];
    assert b' + [b[|b| - 1]] == b;
    if a[|a| - 1] == b[|b| - 1] {
      SubsequenceExtend(a', b', b[|b| - 1]);
    } else {
      SubsequenceShrink(a, b');
      SubsequenceExtend(a', b', b[|b| - 1]);
    }
  }

  /** The keys of a list of key/value pairs, in order. */
  function Keys<V>(es: seq<(string, V)>): (ks: seq<string>)
    ensures |ks| == |es|
  {
    seq(|es|, i requires 0 <= i < |es| => es[i].0)
  }
}
