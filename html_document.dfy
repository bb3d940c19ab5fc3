/**
 * The HTML serialiser of the exporter: a grid of coloured characters becomes
 * one self-contained HTML page. The page is the concatenation of the strings
 * the exporter appends to its string builder, in order: the header, one span
 * per cell, one `<br>` per row and the trailer. `Fragments` is that sequence
 * of appends and `Document` its concatenation; `BuildHtml` is the imperative
 * builder loop, proved to produce `Document`.
 */
module HtmlDocument {
  import opened Wrappers
  import opened Formatting

  /** One cell of the art; only the glyph and its red, green, blue components are read here. */
  datatype AsciiChar = AsciiChar(Simple: string, RgbValue: (int, int, int))

  /** Rows in display order, each a sequence of cells; rows may differ in length. */
  type Grid = seq<seq<AsciiChar>>

  /** The `[4]int` background colour: red, green, blue and an alpha component the page does not use. */
  type Rgba = (int, int, int, int)

  /** The fixed page header, split at the slot where the background literal goes. */
  const HeaderOpen: string :=
    "<!DOCTYPE html><html lang=\"en\">\n" +
    "\t<head>\n" +
    "\t\t<meta charset=\"UTF-8\">\n" +
    "\t\t<meta name=\"viewport\" content=\"width=device-width, initial-scale=1.0\">\n" +
    "\t\t<title>ASCII Art</title>\n" +
    "\t\t<style>\n" +
    "\t\t\tbody {\n" +
    "\t\t\t\tbackground-color: "
  const HeaderClose: string :=
    ";\n" +
    "\t\t\t}\n" +
    "\t\t\tspan { \n" +
    "\t\t\t\tdisplay: inline-block; \n" +
    "\t\t\t\twhite-space: pre; \n" +
    "\t\t\t\tfont-family: monospace; \n" +
    "\t\t\t}\n" +
    "\t\t</style>\n" +
    "\t</head><body><pre>"

  const PlainOpen: string := "<span>"
  const StyledOpen: string := "<span style=\"color:rgb("
  const StyleClose: string := ")\">"
  const SpanClose: string := "</span>"
  const LineBreak: string := "<br>"
  const Trailer: string := "</pre></body></html>"

  /** `#rrggbb` from the first three components; the alpha component is not read. */
  function BackgroundLiteral(bg: Rgba): (r: string)
    ensures |r| >= 7 && r[0] == '#'
  {
    "#" + Hex2(bg.0) + Hex2(bg.1) + Hex2(bg.2)
  }

  function Header(bg: Rgba): string
  {
    HeaderOpen + BackgroundLiteral(bg) + HeaderClose
  }

  /** The monochrome span of a cell: the glyph, unescaped, and no style; it reads back as the bare glyph. */
  function PlainSpan(c: AsciiChar): (r: string)
    ensures IsSpan(r) && r != LineBreak
    ensures DecodeCell(r) == Some(Plain(c.Simple))
  {
    WrappedIsSpan(PlainOpen, c.Simple);
    PlainRoundTrip(c.Simple);
    PlainOpen + c.Simple + SpanClose
  }

  /** The decimal `r,g,b` of a colour, as the coloured spans state it. */
  function ColorStyle(rgb: (int, int, int)): string
  {
    FormatDecimal(rgb.0) + "," + FormatDecimal(rgb.1) + "," + FormatDecimal(rgb.2)
  }

  /**
   * The coloured span of a cell: an inline `rgb(r,g,b)` colour in decimal, then
   * the glyph, unescaped; it reads back as the glyph and exactly its colour.
   */
  function ColoredSpan(c: AsciiChar): (r: string)
    ensures IsSpan(r) && r != LineBreak
    ensures DecodeCell(r) == Some(Styled(c.Simple, c.RgbValue))
  {
    StyledIsSpan(c.RgbValue, c.Simple);
    StyledRoundTrip(c.RgbValue, c.Simple);
    StyledOpen + ColorStyle(c.RgbValue) + StyleClose + c.Simple + SpanClose
  }

  /**
   * The fragment of one cell in the given mode. It is always a span, never a
   * `<br>`, and it reads back as the cell's glyph, verbatim, together with its
   * red, green and blue exactly when the mode is coloured.
   */
  function CellHtml(c: AsciiChar, colored: bool): (r: string)
    ensures IsSpan(r) && r != LineBreak
    ensures DecodeCell(r) == if colored then Some(Styled(c.Simple, c.RgbValue)) else Some(Plain(c.Simple))
  {
    if colored then ColoredSpan(c) else PlainSpan(c)
  }

  /** A string shaped like a cell fragment: it opens a span and ends by closing it. */
  predicate IsSpan(f: string)
  {
    |f| >= |PlainOpen| + |SpanClose| && f[..5] == "<span" && f[|f| - |SpanClose|..] == SpanClose
  }

  lemma PrefixOfAppend(a: string, b: string, k: nat)
    requires k <= |a|
    ensures (a + b)[..k] == a[..k]
  {
  }

  /** Whatever a span's opening tag holds after `<span`, and whatever its glyph, it is a span and not a `<br>`. */
  lemma WrappedIsSpan(open: string, glyph: string)
    requires |open| >= |PlainOpen| && open[..5] == "<span"
    ensures IsSpan(open + glyph + SpanClose) && open + glyph + SpanClose != LineBreak
  {
    var f := open + glyph + SpanClose;
    PrefixOfAppend(open, glyph, 5);
    PrefixOfAppend(open + glyph, SpanClose, 5);
    AppendSplit(open + glyph, SpanClose);
    assert f[1] == open[1] == 's';
  }

  lemma StyledIsSpan(rgb: (int, int, int), glyph: string)
    ensures var f := StyledOpen + ColorStyle(rgb) + StyleClose + glyph + SpanClose;
            IsSpan(f) && f != LineBreak
  {
    var open := StyledOpen + ColorStyle(rgb) + StyleClose;
    PrefixOfAppend(StyledOpen, ColorStyle(rgb), 5);
    PrefixOfAppend(StyledOpen + ColorStyle(rgb), StyleClose, 5);
    WrappedIsSpan(open, glyph);
  }

  /** The appends for one row's cells, in cell order, for a given way of rendering a cell. */
  function CellsWith(row: seq<AsciiChar>, cell: AsciiChar -> string): seq<string>
  {
    seq(|row|, k requires 0 <= k < |row| => cell(row[k]))
  }

  /** The appends for the rows, for a given way of rendering a cell: each row's cells, then one `<br>`. */
  function RowsWith(grid: Grid, cell: AsciiChar -> string): seq<string>
    decreases |grid|
  {
    if grid == [] then []
    else RowsWith(grid[..|grid| - 1], cell) + CellsWith(grid[|grid| - 1], cell) + [LineBreak]
  }

  /** How the exporter renders a cell in the given mode. */
  function Renderer(colored: bool): AsciiChar -> string
  {
    c => CellHtml(c, colored)
  }

  function RowFragments(row: seq<AsciiChar>, colored: bool): seq<string>
  {
    CellsWith(row, Renderer(colored))
  }

  function GridFragments(grid: Grid, colored: bool): seq<string>
  {
    RowsWith(grid, Renderer(colored))
  }

  /**
   * Every string appended to the builder, in order: first the header, last the
   * trailer, and between them one fragment per cell and one per row.
   */
  function Fragments(grid: Grid, colored: bool, bg: Rgba): (fs: seq<string>)
    ensures |fs| == CellCount(grid) + |grid| + 2
    ensures fs[0] == Header(bg) && fs[|fs| - 1] == Trailer
  {
    RowsLength(grid, Renderer(colored));
    [Header(bg)] + GridFragments(grid, colored) + [Trailer]
  }

  function Concat(fs: seq<string>): string
    decreases |fs|
  {
    if fs == [] then "" else Concat(fs[..|fs| - 1]) + fs[|fs| - 1]
  }

  /** The page the exporter writes: it always starts with the header and ends with `</pre></body></html>`. */
  function Document(grid: Grid, colored: bool, bg: Rgba): (d: string)
    ensures |d| >= |Header(bg)| + |Trailer|
    ensures d[..|Header(bg)|] == Header(bg) && d[|d| - |Trailer|..] == Trailer
  {
    var h, body, fs := Header(bg), GridFragments(grid, colored), Fragments(grid, colored, bg);
    assert fs == [h] + body + [Trailer];
    ConcatFramed(h, body, Trailer);
    Framed(h, Concat(body), Trailer);
    Concat(fs)
  }

  /** The number of cells, summed over the rows. */
  function CellCount(grid: Grid): nat
    decreases |grid|
  {
    if grid == [] then 0 else CellCount(grid[..|grid| - 1]) + |grid[|grid| - 1]|
  }

  /** Where row i's fragments start among the row fragments: the cells and breaks of the rows before it. */
  function RowStart(grid: Grid, i: nat): nat
    requires i <= |grid|
  {
    CellCount(grid[..i]) + i
  }

  lemma {:induction false} ConcatAppend(a: seq<string>, b: seq<string>)
    ensures Concat(a + b) == Concat(a) + Concat(b)
    decreases |b|
  {
    if b != [] {
      assert (a + b)[..|a + b| - 1] == a + b[..|b| - 1];
      ConcatAppend(a, b[..|b| - 1]);
    } else {
      assert a + b == a;
    }
  }

  // Facts about appending strings, stated on abstract strings so that proofs
  // about the page need not look inside its long header literal.

  lemma AppendEmpty(a: string)
    ensures "" + a == a && a + "" == a
  {
  }

  lemma AppendSplit(a: string, b: string)
    ensures (a + b)[..|a|] == a && (a + b)[|a|..] == b
  {
  }

  lemma AppendAssoc(a: string, b: string, c: string)
    ensures a + b + c == a + (b + c)
  {
  }

  lemma ConcatSingle(s: string)
    ensures Concat([s]) == s
  {
    assert [s][..0] == [];
    AppendEmpty(s);
  }

  /**
   * The page is the header with the background literal in its slot, then the
   * rows, then the trailer, whatever the grid (an empty one included).
   */
  lemma DocumentLayout(grid: Grid, colored: bool, bg: Rgba)
    ensures Document(grid, colored, bg) ==
            HeaderOpen + BackgroundLiteral(bg) + HeaderClose + Concat(GridFragments(grid, colored)) + Trailer
    ensures grid == [] ==> Document(grid, colored, bg) == Header(bg) + Trailer
  {
    ConcatFramed(Header(bg), GridFragments(grid, colored), Trailer);
    AppendEmpty(Header(bg));
  }

  /** A framed sequence of appends concatenates to its first part, the middle, and its last part. */
  lemma ConcatFramed(h: string, body: seq<string>, t: string)
    ensures Concat([h] + body + [t]) == h + Concat(body) + t
  {
    ConcatAppend([h] + body, [t]);
    ConcatAppend([h], body);
    ConcatSingle(h);
    ConcatSingle(t);
  }

  lemma Framed(h: string, m: string, t: string)
    ensures |h + m + t| >= |h| + |t|
    ensures (h + m + t)[..|h|] == h && (h + m + t)[|h + m + t| - |t|..] == t
  {
    AppendAssoc(h, m, t);
    AppendSplit(h, m + t);
    AppendSplit(h + m, t);
  }

  lemma {:induction false} RowsLength(grid: Grid, cell: AsciiChar -> string)
    ensures |RowsWith(grid, cell)| == CellCount(grid) + |grid|
    decreases |grid|
  {
    if grid != [] {
      RowsLength(grid[..|grid| - 1], cell);
    }
  }

  lemma {:induction false} RowsCounts(grid: Grid, cell: AsciiChar -> string)
    requires forall c :: IsSpan(cell(c)) && cell(c) != LineBreak
    ensures multiset(RowsWith(grid, cell))[LineBreak] == |grid|
    ensures forall f :: f in RowsWith(grid, cell) ==> f == LineBreak || IsSpan(f)
    decreases |grid|
  {
    if grid != [] {
      var prefix := grid[..|grid| - 1];
      var row := CellsWith(grid[|grid| - 1], cell);
      RowsCounts(prefix, cell);
      assert forall k :: 0 <= k < |row| ==> row[k] == cell(grid[|grid| - 1][k]);
      assert LineBreak !in multiset(row);
      assert multiset(RowsWith(grid, cell)) == multiset(RowsWith(prefix, cell)) + multiset(row) + multiset{LineBreak};
    }
  }

  /**
   * Counts: one fragment per cell and one per row; exactly one `<br>` per row;
   * every other fragment is a span, so the spans number the cells.
   */
  lemma FragmentCounts(grid: Grid, colored: bool)
    ensures |GridFragments(grid, colored)| == CellCount(grid) + |grid|
    ensures multiset(GridFragments(grid, colored))[LineBreak] == |grid|
    ensures forall f :: f in GridFragments(grid, colored) ==> f == LineBreak || IsSpan(f)
  {
    var cell := Renderer(colored);
    assert forall c :: IsSpan(cell(c)) && cell(c) != LineBreak;
    RowsLength(grid, cell);
    RowsCounts(grid, cell);
  }

  lemma IndexInParts(a: seq<string>, b: seq<string>, x: string, k: nat)
    requires k <= |a| + |b|
    ensures (a + b + [x])[k] == if k < |a| then a[k] else if k < |a| + |b| then b[k - |a|] else x
  {
  }

  lemma {:induction false} RowsAt(grid: Grid, cell: AsciiChar -> string, i: nat, j: nat)
    requires i < |grid| && j <= |grid[i]|
    ensures RowStart(grid, i) + |grid[i]| < |RowsWith(grid, cell)|
    ensures RowsWith(grid, cell)[RowStart(grid, i) + j] == if j < |grid[i]| then cell(grid[i][j]) else LineBreak
    decreases |grid|
  {
    var n := |grid| - 1;
    var prefix := grid[..n];
    var before := RowsWith(prefix, cell);
    var row := CellsWith(grid[n], cell);
    assert RowsWith(grid, cell) == before + row + [LineBreak];
    RowsLength(prefix, cell);
    if i < n {
      assert prefix[..i] == grid[..i];
      assert prefix[i] == grid[i];
      RowsAt(prefix, cell, i, j);
      assert RowStart(grid, i) == RowStart(prefix, i);
      IndexInParts(before, row, LineBreak, RowStart(grid, i) + j);
    } else {
      assert grid[..n] == prefix;
      assert RowStart(grid, i) == |before|;
      IndexInParts(before, row, LineBreak, RowStart(grid, i) + j);
    }
  }

  /**
   * Row-major placement: for j below the length of row i, fragment
   * RowStart(grid, i) + j is cell j of row i, and the fragment after the
   * row's last cell is its `<br>`.
   */
  lemma FragmentAt(grid: Grid, colored: bool, i: nat, j: nat)
    requires i < |grid| && j <= |grid[i]|
    ensures RowStart(grid, i) + |grid[i]| < |GridFragments(grid, colored)|
    ensures GridFragments(grid, colored)[RowStart(grid, i) + j] ==
            if j < |grid[i]| then CellHtml(grid[i][j], colored) else LineBreak
  {
    RowsAt(grid, Renderer(colored), i, j);
  }

  /** The fragments of the monochrome page depend only on the glyphs, never on the colours. */
  lemma {:induction false} MonochromeIgnoresColour(grid: Grid, other: Grid)
    requires |grid| == |other|
    requires forall i :: 0 <= i < |grid| ==> |grid[i]| == |other[i]|
    requires forall i, j :: 0 <= i < |grid| && 0 <= j < |grid[i]| ==> grid[i][j].Simple == other[i][j].Simple
    ensures GridFragments(grid, false) == GridFragments(other, false)
    decreases |grid|
  {
    if grid != [] {
      var n := |grid| - 1;
      MonochromeIgnoresColour(grid[..n], other[..n]);
      assert RowFragments(grid[n], false) == RowFragments(other[n], false);
    }
  }

  /** In monochrome mode colours never reach the page, so two grids with the same glyphs give the same page. */
  lemma MonochromeDocumentIgnoresColour(grid: Grid, other: Grid, bg: Rgba)
    requires |grid| == |other|
    requires forall i :: 0 <= i < |grid| ==> |grid[i]| == |other[i]|
    requires forall i, j :: 0 <= i < |grid| && 0 <= j < |grid[i]| ==> grid[i][j].Simple == other[i][j].Simple
    ensures Document(grid, false, bg) == Document(other, false, bg)
  {
    MonochromeIgnoresColour(grid, other);
  }

  /** The alpha component of the background colour never changes the page. */
  lemma AlphaIgnored(grid: Grid, colored: bool, bg: Rgba, alpha: int)
    ensures Document(grid, colored, bg) == Document(grid, colored, (bg.0, bg.1, bg.2, alpha))
  {
  }

  /**
   * For components in 0..255 the background literal is `#` and six lower-case
   * hex digits, two per component, in red, green, blue order.
   */
  lemma BackgroundLiteralShape(bg: Rgba)
    requires 0 <= bg.0 <= 255 && 0 <= bg.1 <= 255 && 0 <= bg.2 <= 255
    ensures var lit := BackgroundLiteral(bg);
            |lit| == 7 && lit[0] == '#' && AllDigits(lit[1..], 16) &&
            DigitsValue(lit[1..3], 16) == bg.0 &&
            DigitsValue(lit[3..5], 16) == bg.1 &&
            DigitsValue(lit[5..7], 16) == bg.2
  {
    Hex2Byte(bg.0);
    Hex2Byte(bg.1);
    Hex2Byte(bg.2);
    var lit := BackgroundLiteral(bg);
    assert lit[1..3] == Hex2(bg.0);
    assert lit[3..5] == Hex2(bg.1);
    assert lit[5..7] == Hex2(bg.2);
  }

  /** A cell fragment read back: its glyph, and its colour when it carries one. */
  datatype DecodedCell = Plain(glyph: string) | Styled(glyph: string, rgb: (int, int, int))

  /** The text before the first c and the text after it, if s holds a c. */
  function SplitAt(s: string, c: char): Option<(string, string)>
    decreases |s|
  {
    if s == [] then None
    else if s[0] == c then Some(([], s[1..]))
    else match SplitAt(s[1..], c)
      case None => None
      case Some(parts) => Some(([s[0]] + parts.0, parts.1))
  }

  lemma {:induction false} SplitAtFirst(a: string, c: char, b: string)
    requires c !in a
    ensures SplitAt(a + [c] + b, c) == Some((a, b))
    decreases |a|
  {
    if a != [] {
      assert (a + [c] + b)[1..] == a[1..] + [c] + b;
      SplitAtFirst(a[1..], c, b);
      assert [a[0]] + a[1..] == a;
    }
  }

  /** Reads `r,g,b)">glyph` back from what follows the opening of a coloured span. */
  function DecodeStyle(s: string): Option<DecodedCell>
  {
    match SplitAt(s, ',')
    case None => None
    case Some(red) =>
      match SplitAt(red.1, ',')
      case None => None
      case Some(green) =>
        match SplitAt(green.1, ')')
        case None => None
        case Some(blue) =>
          if |blue.1| >= 2 && blue.1[..2] == "\">" then
            match (ParseSigned(red.0, 10), ParseSigned(green.0, 10), ParseSigned(blue.0, 10))
            case (Some(r), Some(g), Some(b)) => Some(Styled(blue.1[2..], (r, g, b)))
            case _ => None
          else None
  }

  /** Reads one cell fragment back, recovering the glyph verbatim and the colour it states. */
  function DecodeCell(f: string): Option<DecodedCell>
  {
    if |f| < |SpanClose| || f[|f| - |SpanClose|..] != SpanClose then None
    else
      var inner := f[..|f| - |SpanClose|];
      if |inner| >= |PlainOpen| && inner[..|PlainOpen|] == PlainOpen then Some(Plain(inner[|PlainOpen|..]))
      else if |inner| >= |StyledOpen| && inner[..|StyledOpen|] == StyledOpen then DecodeStyle(inner[|StyledOpen|..])
      else None
  }

  lemma DecimalHasNoSeparator(n: int)
    ensures ',' !in FormatDecimal(n) && ')' !in FormatDecimal(n)
  {
    var s := FormatDecimal(n);
    forall k | 0 <= k < |s| ensures s[k] != ',' && s[k] != ')' {
      assert s[k] == '-' || IsDigit(s[k], 10);
    }
  }

  /** The style decoder splits at the first separators and parses each component. */
  lemma DecodeStyleOf(rs: string, gs: string, bs: string, glyph: string, rgb: (int, int, int))
    requires ',' !in rs && ',' !in gs && ')' !in bs
    requires ParseSigned(rs, 10) == Some(rgb.0) && ParseSigned(gs, 10) == Some(rgb.1) && ParseSigned(bs, 10) == Some(rgb.2)
    ensures DecodeStyle(rs + [','] + (gs + [','] + (bs + [')'] + ("\">" + glyph)))) == Some(Styled(glyph, rgb))
  {
    var afterBlue := "\">" + glyph;
    var afterGreen := bs + [')'] + afterBlue;
    var afterRed := gs + [','] + afterGreen;
    SplitAtFirst(rs, ',', afterRed);
    SplitAtFirst(gs, ',', afterGreen);
    SplitAtFirst(bs, ')', afterBlue);
    assert afterBlue[..2] == "\">" && afterBlue[2..] == glyph;
  }

  lemma StyleRegroup(rs: string, gs: string, bs: string, glyph: string)
    ensures rs + "," + gs + "," + bs + StyleClose + glyph == rs + [','] + (gs + [','] + (bs + [')'] + ("\">" + glyph)))
  {
  }

  lemma DecodeStyleRoundTrip(rgb: (int, int, int), glyph: string)
    ensures DecodeStyle(ColorStyle(rgb) + StyleClose + glyph) == Some(Styled(glyph, rgb))
  {
    var (r, g, b) := rgb;
    var rs, gs, bs := FormatDecimal(r), FormatDecimal(g), FormatDecimal(b);
    StyleRegroup(rs, gs, bs, glyph);
    DecimalHasNoSeparator(r);
    DecimalHasNoSeparator(g);
    DecimalHasNoSeparator(b);
    DecimalRoundTrip(r);
    DecimalRoundTrip(g);
    DecimalRoundTrip(b);
    DecodeStyleOf(rs, gs, bs, glyph, rgb);
  }

  /** Whatever the glyph, the monochrome span around it decodes to the glyph, verbatim, with no colour. */
  lemma PlainRoundTrip(glyph: string)
    ensures DecodeCell(PlainOpen + glyph + SpanClose) == Some(Plain(glyph))
  {
    var f := PlainOpen + glyph + SpanClose;
    assert f[|f| - |SpanClose|..] == SpanClose;
    var inner := f[..|f| - |SpanClose|];
    assert inner == PlainOpen + glyph;
    assert inner[..|PlainOpen|] == PlainOpen;
  }

  /** A coloured span decodes to its glyph, verbatim, and exactly its red, green and blue components. */
  lemma StyledRoundTrip(rgb: (int, int, int), glyph: string)
    ensures DecodeCell(StyledOpen + ColorStyle(rgb) + StyleClose + glyph + SpanClose) == Some(Styled(glyph, rgb))
  {
    var f := StyledOpen + ColorStyle(rgb) + StyleClose + glyph + SpanClose;
    var style := ColorStyle(rgb) + StyleClose + glyph;
    AppendAssoc(StyledOpen + ColorStyle(rgb), StyleClose, glyph);
    AppendAssoc(StyledOpen, ColorStyle(rgb), StyleClose + glyph);
    AppendAssoc(ColorStyle(rgb), StyleClose, glyph);
    assert f == StyledOpen + style + SpanClose;
    AppendSplit(StyledOpen + style, SpanClose);
    var inner := f[..|f| - |SpanClose|];
    assert inner == StyledOpen + style;
    AppendSplit(StyledOpen, style);
    PrefixOfAppend(StyledOpen, style, |PlainOpen|);
    assert inner[..|PlainOpen|] != PlainOpen by {
      assert StyledOpen[..|PlainOpen|][5] == ' ' && PlainOpen[5] == '>';
    }
    DecodeStyleRoundTrip(rgb, glyph);
  }

  /**
   * No escaping is done, so the page alone does not determine the grid: a
   * glyph holding `</span><span>` renders like two cells, whatever the glyphs
   * around it and whatever the colours.
   */
  lemma UnescapedGlyphsAmbiguous(a: string, b: string, c1: (int, int, int), c2: (int, int, int),
                                 c3: (int, int, int), bg: Rgba)
    ensures var one := [[AsciiChar(a + SpanClose + PlainOpen + b, c1)]];
            var two := [[AsciiChar(a, c2), AsciiChar(b, c3)]];
            one != two && Document(one, false, bg) == Document(two, false, bg)
  {
    var one := [[AsciiChar(a + SpanClose + PlainOpen + b, c1)]];
    var two := [[AsciiChar(a, c2), AsciiChar(b, c3)]];
    assert |one[0]| != |two[0]|;
    assert one[..0] == [] && two[..0] == [];
    assert RowsWith(one[..0], Renderer(false)) == [] && RowsWith(two[..0], Renderer(false)) == [];
    var rowOne := RowFragments(one[0], false);
    var rowTwo := RowFragments(two[0], false);
    assert GridFragments(one, false) == rowOne + [LineBreak];
    assert GridFragments(two, false) == rowTwo + [LineBreak];
    assert Concat(rowOne) == Concat(rowTwo) by {
      assert rowOne == [PlainSpan(one[0][0])];
      assert rowTwo == [PlainSpan(two[0][0])] + [PlainSpan(two[0][1])];
      ConcatSingle(PlainSpan(one[0][0]));
      ConcatSnoc([PlainSpan(two[0][0])], PlainSpan(two[0][1]));
      ConcatSingle(PlainSpan(two[0][0]));
      GlyphSplit(a, b);
    }
    ConcatAppend(rowOne, [LineBreak]);
    ConcatAppend(rowTwo, [LineBreak]);
    DocumentLayout(one, false, bg);
    DocumentLayout(two, false, bg);
  }

  lemma GlyphSplit(a: string, b: string)
    ensures PlainOpen + (a + SpanClose + PlainOpen + b) + SpanClose ==
            (PlainOpen + a + SpanClose) + (PlainOpen + b + SpanClose)
  {
  }

  /** The string builder the exporter appends to. */
  class Builder {
    var text: string

    constructor ()
      ensures text == ""
    {
      text := "";
    }

    method WriteString(s: string)
      modifies this
      ensures text == old(text) + s
    {
      text := text + s;
    }
  }

  lemma ConcatSnoc(fs: seq<string>, s: string)
    ensures Concat(fs + [s]) == Concat(fs) + s
  {
    assert (fs + [s])[..|fs|] == fs;
  }

  lemma RowFragmentsSnoc(row: seq<AsciiChar>, j: nat, colored: bool)
    requires j < |row|
    ensures RowFragments(row[..j + 1], colored) == RowFragments(row[..j], colored) + [CellHtml(row[j], colored)]
  {
    var cell := Renderer(colored);
    assert CellsWith(row[..j + 1], cell) == CellsWith(row[..j], cell) + [cell(row[j])];
  }

  lemma GridFragmentsSnoc(grid: Grid, i: nat, colored: bool)
    requires i < |grid|
    ensures GridFragments(grid[..i + 1], colored) ==
            GridFragments(grid[..i], colored) + RowFragments(grid[i], colored) + [LineBreak]
  {
    assert grid[..i + 1][..i] == grid[..i];
  }

  /**
   * The two nested loops of the exporter: for each row, each cell's span in
   * order, then one `<br>`, appended to the builder.
   */
  method WriteRows(builder: Builder, asciiArt: Grid, colored: bool)
    modifies builder
    ensures builder.text == old(builder.text) + Concat(GridFragments(asciiArt, colored))
  {
    ghost var start := builder.text;
    for i := 0 to |asciiArt|
      invariant builder.text == start + Concat(GridFragments(asciiArt[..i], colored))
    {
      var line := asciiArt[i];
      ghost var done := builder.text;
      for j := 0 to |line|
        invariant builder.text == done + Concat(RowFragments(line[..j], colored))
      {
        var asciiChar := line[j];
        ghost var before := Concat(RowFragments(line[..j], colored));
        if colored {
          builder.WriteString(ColoredSpan(asciiChar));
        } else {
          builder.WriteString(PlainSpan(asciiChar));
        }
        RowFragmentsSnoc(line, j, colored);
        ConcatSnoc(RowFragments(line[..j], colored), CellHtml(asciiChar, colored));
        AppendAssoc(done, before, CellHtml(asciiChar, colored));
      }
      ghost var rowText := Concat(RowFragments(line, colored));
      builder.WriteString(LineBreak);
      assert line[..|line|] == line;
      GridFragmentsSnoc(asciiArt, i, colored);
      ghost var prior := GridFragments(asciiArt[..i], colored);
      ConcatAppend(prior, RowFragments(line, colored));
      ConcatSnoc(prior + RowFragments(line, colored), LineBreak);
      AppendAssoc(start, Concat(prior), rowText);
      AppendAssoc(start, Concat(prior) + rowText, LineBreak);
    }
    assert asciiArt[..|asciiArt|] == asciiArt;
  }

  /**
   * Builds the page: the header with the background literal, then the rows,
   * then the trailer, appended one by one to a builder.
   */
  method BuildHtml(asciiArt: Grid, colored: bool, saveBgColor: Rgba) returns (html: string)
    ensures html == Document(asciiArt, colored, saveBgColor)
  {
    var builder := new Builder();
    var backgroundColor := BackgroundLiteral(saveBgColor);
    builder.WriteString(HeaderOpen + backgroundColor + HeaderClose);
    AppendEmpty(HeaderOpen + backgroundColor + HeaderClose);
    WriteRows(builder, asciiArt, colored);
    builder.WriteString(Trailer);
    DocumentLayout(asciiArt, colored, saveBgColor);
    html := builder.text;
  }
}
