// The text pre-processing inside `create_pdf` (app.py:281-311): the theme
// colour parse and the per-line classification and cleaning. FPDF itself is
// not modelled; each line becomes a render instruction instead.
module PdfRender {
  import opened Wrappers
  import opened Strings

  /** A text colour as FPDF's `set_text_color(r, g, b)` receives it. */
  datatype Rgb = Rgb(r: int, g: int, b: int)

  const Black := Rgb(0, 0, 0)

  // ---------------------------------------------------------------------
  // Python's int(text, 16)
  // ---------------------------------------------------------------------

  predicate IsHexDigit(c: char)
  {
    ('0' <= c <= '9') || ('a' <= c <= 'f') || ('A' <= c <= 'F')
  }

  function DigitValue(c: char): nat
  {
    if '0' <= c <= '9' then c as nat - '0' as nat
    else if 'a' <= c <= 'f' then c as nat - 'a' as nat + 10
    else if 'A' <= c <= 'F' then c as nat - 'A' as nat + 10
    else 0
  }

  /**
   * The digit part of a base-16 literal: hex digits, where single
   * underscores may separate two digits.
   */
  predicate HexNumeral(s: string)
  {
    |s| > 0 && IsHexDigit(s[0]) && IsHexDigit(s[|s| - 1]) &&
    forall i :: 0 <= i < |s| ==> IsHexDigit(s[i]) || (s[i] == '_' && i + 1 < |s| && s[i + 1] != '_')
  }

  /** The value of the digits of `s`, read most significant first; underscores are skipped. */
  function HexValue(s: string): nat
  {
    if s == [] then 0
    else if IsHexDigit(s[|s| - 1]) then HexValue(s[..|s| - 1]) * 16 + DigitValue(s[|s| - 1])
    else HexValue(s[..|s| - 1])
  }

  /**
   * The whitespace `int()` skips around a literal: Python's `str.isspace`
   * set without the separators U+001C..U+001F, which `int()` does not skip.
   */
  predicate IsIntSpace(c: char)
  {
    IsSpace(c) && !('\U{1C}' <= c <= '\U{1F}')
  }

  /** `text` without leading `int()` whitespace. */
  function TrimLeft(t: string): string
    decreases |t|
  {
    if |t| > 0 && IsIntSpace(t[0]) then TrimLeft(t[1..]) else t
  }

  /** `text` without trailing `int()` whitespace. */
  function TrimRight(t: string): string
    decreases |t|
  {
    if |t| > 0 && IsIntSpace(t[|t| - 1]) then TrimRight(t[..|t| - 1]) else t
  }

  /** The literal `int()` reads: `text` without surrounding `int()` whitespace. */
  function IntTrim(text: string): string
  {
    TrimRight(TrimLeft(text))
  }

  /** Trimming never lengthens, and keeps a literal with no whitespace at its ends. */
  lemma {:induction false} IntTrimShape(text: string)
    ensures |IntTrim(text)| <= |text|
    ensures text == [] || (!IsIntSpace(text[0]) && !IsIntSpace(text[|text| - 1])) ==> IntTrim(text) == text
  {
    TrimLeftShorter(text);
    TrimRightShorter(TrimLeft(text));
  }

  lemma {:induction false} TrimLeftShorter(t: string)
    ensures |TrimLeft(t)| <= |t|
    decreases |t|
  {
    if |t| > 0 && IsIntSpace(t[0]) {
      TrimLeftShorter(t[1..]);
    }
  }

  lemma {:induction false} TrimRightShorter(t: string)
    ensures |TrimRight(t)| <= |t|
    decreases |t|
  {
    if |t| > 0 && IsIntSpace(t[|t| - 1]) {
      TrimRightShorter(t[..|t| - 1]);
    }
  }

  /** `text` with one leading sign removed. */
  function Unsigned(t: string): string
  {
    if |t| > 0 && (t[0] == '-' || t[0] == '+') then t[1..] else t
  }

  /** An unsigned literal with its `0x`/`0X` prefix (and the one underscore allowed after it) removed. */
  function Unprefixed(u: string): string
  {
    if |u| >= 2 && u[0] == '0' && (u[1] == 'x' || u[1] == 'X') then
      (if |u| >= 3 && u[2] == '_' then u[3..] else u[2..])
    else u
  }

  /**
   * `int(text, 16)`: surrounding whitespace, an optional sign, an optional
   * `0x` prefix, then the digits. None stands for the ValueError.
   */
  function ParseHexInt(text: string): Option<int>
  {
    var t := IntTrim(text);
    var body := Unprefixed(Unsigned(t));
    var v: int := HexValue(body);
    if !HexNumeral(body) then None
    else if |t| > 0 && t[0] == '-' then Some(-v)
    else Some(v)
  }

  /** Python's clamped slice `s[i:j]` for `0 <= i <= j`. */
  function Slice(s: string, i: nat, j: nat): string
    requires i <= j
  {
    if |s| <= i then [] else if |s| <= j then s[i..] else s[i..j]
  }

  /** `s.lstrip('#')`. */
  function DropHashes(s: string): string
    decreases |s|
  {
    if |s| > 0 && s[0] == '#' then DropHashes(s[1..]) else s
  }

  /**
   * The heading colour: leading `#`s removed, then three two-character
   * slices parsed in base 16; if any of them fails, black.
   */
  function ThemeColour(theme: string): Rgb
  {
    var t := DropHashes(theme);
    var r, g, b := ParseHexInt(Slice(t, 0, 2)), ParseHexInt(Slice(t, 2, 4)), ParseHexInt(Slice(t, 4, 6));
    if r.Some? && g.Some? && b.Some? then Rgb(r.value, g.value, b.value) else Black
  }

  /** The lower-case hex digit of a value below 16. */
  function HexChar(d: nat): char
    requires d < 16
  {
    if d < 10 then ('0' as nat + d) as char else ('a' as nat + d - 10) as char
  }

  /** A byte as two lower-case hex digits, the way a CSS colour writes it. */
  function Hex2(n: nat): string
    requires n < 256
  {
    [HexChar(n / 16), HexChar(n % 16)]
  }

  // ---------------------------------------------------------------------
  // Lines
  // ---------------------------------------------------------------------

  /**
   * One FPDF call: a bold heading cell in the theme colour (font size 16,
   * 14 or 12 for levels 1, 2, 3), or a body `multi_cell` in black at size 11.
   */
  datatype Instr = Heading(level: nat, colour: Rgb, text: string) | Body(text: string)

  /** The heading marker of a level: `# `, `## `, `### `. */
  function Marker(level: nat): string
    requires 1 <= level <= 3
  {
    if level == 1 then "# " else if level == 2 then "## " else "### "
  }

  /** `.encode('latin-1', 'replace').decode('latin-1')`: each code point above U+00FF becomes one `?`. */
  function Latin1(s: string): string
  {
    seq(|s|, i requires 0 <= i < |s| => if s[i] <= '\U{FF}' then s[i] else '?')
  }

  /** The cleaning applied to a body line. */
  function CleanBody(line: string): string
  {
    Latin1(ReplaceAll(ReplaceAll(line, "**", ""), "* ", "• "))
  }

  /** The render instruction for one line (not stripped first). */
  function RenderLine(line: string, colour: Rgb): Instr
  {
    if StartsWith(line, "# ") then Heading(1, colour, ReplaceAll(line, "# ", ""))
    else if StartsWith(line, "## ") then Heading(2, colour, ReplaceAll(line, "## ", ""))
    else if StartsWith(line, "### ") then Heading(3, colour, ReplaceAll(line, "### ", ""))
    else Body(CleanBody(line))
  }

  /** `create_pdf` up to FPDF: the colour is parsed once, then every line is rendered in order. */
  method RenderDocument(markdownText: string, themeColour: string) returns (doc: seq<Instr>)
    ensures |doc| == |Split(markdownText, '\n')|
    ensures forall i :: 0 <= i < |doc| ==> doc[i] == RenderLine(Split(markdownText, '\n')[i], ThemeColour(themeColour))
  {
    var colour := ThemeColour(themeColour);
    doc := RenderLines(Split(markdownText, '\n'), colour);
  }

  /** The per-line loop. */
  method RenderLines(lines: seq<string>, colour: Rgb) returns (doc: seq<Instr>)
    ensures |doc| == |lines|
    ensures forall i :: 0 <= i < |doc| ==> doc[i] == RenderLine(lines[i], colour)
  {
    doc := [];
    var i := 0;
    while i < |lines|
      invariant 0 <= i <= |lines|
      invariant |doc| == i
      invariant forall k :: 0 <= k < i ==> doc[k] == RenderLine(lines[k], colour)
    {
      doc := doc + [RenderLine(lines[i], colour)];
      i := i + 1;
    }
  }

  // ---------------------------------------------------------------------
  // Properties of the colour parse
  // ---------------------------------------------------------------------

  /** At most two digits are worth at most 255, one at most 15. */
  lemma HexValueShort(s: string)
    requires |s| <= 2
    ensures HexValue(s) <= (if |s| <= 1 then 15 else 255)
  {
    if s != [] {
      var f := s[..|s| - 1];
      assert |f| <= 1;
      if f != [] {
        assert f[..0] == [];
      }
      assert HexValue(f) <= 15;
    }
  }

  /**
   * A slice of at most two characters parses, if at all, to a value in
   * -15..255: the lowest is "-f", the highest "ff".
   */
  lemma ParseShortBounds(text: string)
    requires |text| <= 2 && ParseHexInt(text).Some?
    ensures -15 <= ParseHexInt(text).value <= 255
  {
    var t := IntTrim(text);
    IntTrimShape(text);
    var u := Unsigned(t);
    if |t| > 0 && (t[0] == '-' || t[0] == '+') {
      assert Unprefixed(u) == u;
      HexValueShort(u);
    } else {
      assert u == t;
      assert Unprefixed(u) == u;
      HexValueShort(u);
    }
  }

  /** Every component of the heading colour lies in -15..255. */
  lemma ThemeBounds(theme: string)
    ensures var c := ThemeColour(theme); -15 <= c.r <= 255 && -15 <= c.g <= 255 && -15 <= c.b <= 255
  {
    var t := DropHashes(theme);
    var r, g, b := Slice(t, 0, 2), Slice(t, 2, 4), Slice(t, 4, 6);
    if ParseHexInt(r).Some? && ParseHexInt(g).Some? && ParseHexInt(b).Some? {
      ParseShortBounds(r);
      ParseShortBounds(g);
      ParseShortBounds(b);
      assert ThemeColour(theme) == Rgb(ParseHexInt(r).value, ParseHexInt(g).value, ParseHexInt(b).value);
    } else {
      assert ThemeColour(theme) == Black;
    }
  }

  lemma DigitOfHexChar(d: nat)
    requires d < 16
    ensures IsHexDigit(HexChar(d)) && DigitValue(HexChar(d)) == d && HexChar(d) != '#'
  {
  }

  /** Two hex digits parse back to the byte they spell. */
  lemma {:induction false} ParseHex2(n: nat)
    requires n < 256
    ensures ParseHexInt(Hex2(n)) == Some(n)
  {
    var h := Hex2(n);
    DigitOfHexChar(n / 16);
    DigitOfHexChar(n % 16);
    IntTrimShape(h);
    assert Unsigned(h) == h;
    assert Unprefixed(h) == h;
    assert HexNumeral(h);
    assert h[..1][..0] == [];
    assert HexValue(h[..1]) == n / 16;
  }

  /** Leading `#`s do not matter. */
  lemma HashesIgnored(theme: string)
    ensures ThemeColour("#" + theme) == ThemeColour(theme)
  {
    assert ("#" + theme)[1..] == theme;
  }

  /** A colour written as `#rrggbb` in lower-case hex is read back exactly. */
  lemma {:induction false} ThemeRoundTrip(r: nat, g: nat, b: nat)
    requires r < 256 && g < 256 && b < 256
    ensures ThemeColour("#" + Hex2(r) + Hex2(g) + Hex2(b)) == Rgb(r, g, b)
  {
    var s := Hex2(r) + Hex2(g) + Hex2(b);
    assert "#" + Hex2(r) + Hex2(g) + Hex2(b) == "#" + s;
    HashesIgnored(s);
    DigitOfHexChar(r / 16);
    assert DropHashes(s) == s;
    assert Slice(s, 0, 2) == Hex2(r);
    assert Slice(s, 2, 4) == Hex2(g);
    assert Slice(s, 4, 6) == Hex2(b);
    ParseHex2(r);
    ParseHex2(g);
    ParseHex2(b);
  }

  /** The theme the application passes, `#4b6cb7`, gives (75, 108, 183). */
  lemma DefaultTheme()
    ensures ThemeColour("#4b6cb7") == Rgb(75, 108, 183)
  {
    assert Hex2(75) == "4b" && Hex2(108) == "6c" && Hex2(183) == "b7";
    assert "#4b6cb7" == "#" + Hex2(75) + Hex2(108) + Hex2(183);
    ThemeRoundTrip(75, 108, 183);
  }

  /** A theme of at most four digits (such as the CSS shorthand `#fff`) leaves the blue slice empty: black. */
  lemma ShortThemeIsBlack(theme: string)
    requires |DropHashes(theme)| <= 4
    ensures ThemeColour(theme) == Black
  {
    assert Slice(DropHashes(theme), 4, 6) == [];
    IntTrimShape([]);
  }

  /** A signed slice is accepted: `-f-f-f` gives three components of -15. */
  lemma NegativeComponents()
    ensures ThemeColour("-f-f-f") == Rgb(-15, -15, -15)
  {
    var t := "-f-f-f";
    assert DropHashes(t) == t;
    assert Slice(t, 0, 2) == "-f" && Slice(t, 2, 4) == "-f" && Slice(t, 4, 6) == "-f";
    IntTrimShape("-f");
    assert Unsigned("-f") == "f";
    assert Unprefixed("f") == "f";
    assert "f"[..0] == [];
    assert HexValue("f") == 15;
  }

  /** A space before a digit is skipped: " f0000" gives (15, 0, 0). */
  lemma SpaceSkipped()
    ensures ThemeColour(" f0000") == Rgb(15, 0, 0)
  {
    var t := " f0000";
    assert DropHashes(t) == t;
    assert Slice(t, 0, 2) == " f" && Slice(t, 2, 4) == "00" && Slice(t, 4, 6) == "00";
    assert ParseHexInt(" f") == Some(15) by {
      assert TrimLeft(" f") == "f";
      IntTrimShape("f");
      assert "f"[..0] == [];
    }
    assert ParseHexInt("00") == Some(0) by {
      IntTrimShape("00");
      assert "00"[..1] == "0" && "0"[..0] == [];
    }
  }

  /**
   * The information separator U+001C is whitespace to `str.isspace` but not
   * to `int()`: that slice fails and the colour falls back to black.
   */
  lemma SeparatorNotSkipped()
    ensures ThemeColour("\U{1C}f0000") == Black
  {
    var u := "\U{1C}f0000";
    assert DropHashes(u) == u;
    assert Slice(u, 0, 2) == "\U{1C}f";
    assert ParseHexInt("\U{1C}f") == None by {
      IntTrimShape("\U{1C}f");
      assert !HexNumeral("\U{1C}f");
    }
  }

  // ---------------------------------------------------------------------
  // Properties of the line classification
  // ---------------------------------------------------------------------

  /**
   * A line is a heading of level k exactly when it starts with the level-k
   * marker; headings carry the theme colour, and levels are 1 to 3.
   */
  lemma RenderLevel(line: string, colour: Rgb, k: nat)
    requires 1 <= k <= 3
    ensures (RenderLine(line, colour).Heading? && RenderLine(line, colour).level == k) <==> StartsWith(line, Marker(k))
    ensures RenderLine(line, colour).Heading? ==> 1 <= RenderLine(line, colour).level <= 3 && RenderLine(line, colour).colour == colour
  {
    if StartsWith(line, "## ") || StartsWith(line, "### ") {
      assert line[1] == '#';
      assert !StartsWith(line, "# ");
    }
    if StartsWith(line, "### ") {
      assert line[2] == '#';
      assert !StartsWith(line, "## ");
    }
  }

  /** A heading written as marker and title, the title free of the marker, shows the title. */
  lemma HeadingTitle(k: nat, title: string, colour: Rgb)
    requires 1 <= k <= 3 && !Contains(title, Marker(k))
    ensures RenderLine(Marker(k) + title, colour) == Heading(k, colour, title)
  {
    var line := Marker(k) + title;
    assert StartsWith(line, Marker(k));
    RenderLevel(line, colour, k);
    assert line[..|Marker(k)|] == Marker(k) && line[|Marker(k)|..] == title;
    ReplaceAbsent(title, Marker(k), "");
  }

  /** Latin-1 sanitising never creates a `**`. */
  lemma Latin1KeepsNoBold(s: string)
    requires !Contains(s, "**")
    ensures !Contains(Latin1(s), "**")
  {
    ContainsAt(Latin1(s), "**");
    forall i | OccursAt(Latin1(s), "**", i) ensures OccursAt(s, "**", i) {
      assert Latin1(s)[i..i + 2][0] == '*' && Latin1(s)[i..i + 2][1] == '*';
      assert s[i..i + 2] == "**";
    }
    ContainsAt(s, "**");
  }

  /**
   * Body text is printable by FPDF's core fonts: every character is at most
   * U+00FF and no `**` is left; a line without `**` keeps its length.
   */
  lemma BodyText(line: string, colour: Rgb)
    requires RenderLine(line, colour).Body?
    ensures forall i :: 0 <= i < |RenderLine(line, colour).text| ==> RenderLine(line, colour).text[i] <= '\U{FF}'
    ensures !Contains(RenderLine(line, colour).text, "**")
    ensures !Contains(line, "**") ==> |RenderLine(line, colour).text| == |line|
  {
    var a := ReplaceAll(line, "**", "");
    var b := ReplaceAll(a, "* ", "• ");
    assert RenderLine(line, colour).text == Latin1(b);
    RemoveBoldLeavesNone(line);
    BulletKeepsNoBold(a);
    Latin1KeepsNoBold(b);
    ReplaceSameLength(a, "* ", "• ");
    if !Contains(line, "**") {
      ReplaceAbsent(line, "**", "");
    }
  }

  /** A markdown bullet `* ` is printed as `? `: the inserted `•` does not survive Latin-1. */
  lemma BulletLine(rest: string, colour: Rgb)
    requires !Contains("* " + rest, "**")
    ensures RenderLine("* " + rest, colour) == Body("? " + CleanBody(rest))
  {
    var line := "* " + rest;
    assert line[..2] == "* " && line[2..] == rest;
    assert !StartsWith(line, "# ") && !StartsWith(line, "## ") && !StartsWith(line, "### ") by {
      assert line[0] == '*';
    }
    ReplaceAbsent(line, "**", "");
    ReplaceAbsent(rest, "**", "");
    var x := ReplaceAll(rest, "* ", "• ");
    assert ReplaceAll(line, "* ", "• ") == "• " + x;
    assert Latin1("• " + x) == "? " + Latin1(x);
  }

  /** A line with no `*`, no heading marker and only Latin-1 characters is printed unchanged. */
  lemma PlainLine(line: string, colour: Rgb)
    requires !StartsWith(line, "# ") && !StartsWith(line, "## ") && !StartsWith(line, "### ")
    requires '*' !in line
    requires forall i :: 0 <= i < |line| ==> line[i] <= '\U{FF}'
    ensures RenderLine(line, colour) == Body(line)
  {
    AbsentHead(line, "**");
    AbsentHead(line, "* ");
    ReplaceAbsent(line, "**", "");
    ReplaceAbsent(line, "* ", "• ");
  }
}
