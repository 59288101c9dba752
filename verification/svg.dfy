/** The SVG document `image_to_svg_vector` writes: a header carrying the
    image's size, one `<rect>` per run in scan order, and the closing tag.
    The document is modelled both as a structure and as the text written to
    the output file. */
module Svg {
  import opened Wrappers
  import opened Pixels
  import opened Decimal
  import opened Fill
  import opened Runs
  import opened Raster

  datatype ViewBox = ViewBox(minX: nat, minY: nat, width: nat, height: nat)

  /** One `<rect>` element; `opacity` is the `fill-opacity` attribute, when
      written. */
  datatype Rect = Rect(x: nat, y: nat, width: nat, height: nat, fill: string, opacity: Option<real>)

  /** The `<svg>` root: its size, its view box, whether it asks for
      crisp-edge rendering, and its rectangles. */
  datatype Document = Document(width: nat, height: nat, viewBox: ViewBox, crispEdges: bool, rects: seq<Rect>)

  /** The rectangle written for one run. */
  function RunToRect(r: Run): (rect: Rect)
    ensures rect.x == r.x && rect.y == r.row && rect.width == r.len && rect.height == 1
    ensures ParseFill(rect.fill) == Some((r.color.r, r.color.g, r.color.b))
    ensures rect.opacity.Some? <==> r.color.a < 255
    ensures rect.opacity.Some? ==> rect.opacity.value * 255.0 == r.color.a as real
  {
    FillRoundTrip(r.color.r, r.color.g, r.color.b);
    var o := Opacity(r.color.a);
    Rect(r.x, r.row, r.len, 1, FillHex(r.color.r, r.color.g, r.color.b),
         if EmitsOpacity(r.color.a) then Some(o) else None)
  }

  function RunsToRects(runs: seq<Run>): (rects: seq<Rect>)
    ensures |rects| == |runs|
    ensures forall k :: 0 <= k < |runs| ==> rects[k] == RunToRect(runs[k])
  {
    seq(|runs|, k requires 0 <= k < |runs| => RunToRect(runs[k]))
  }

  /** The document of an image. */
  function ImageToSvg(img: Image): (doc: Document)
    requires img.Valid()
    ensures doc.width == img.width && doc.height == img.height
    ensures doc.viewBox == ViewBox(0, 0, img.width, img.height)
    ensures doc.crispEdges
    ensures |doc.rects| == |Encode(img.pixels)|
    ensures forall k :: 0 <= k < |doc.rects| ==>
      var rect := doc.rects[k];
      && rect.height == 1
      && rect.y < img.height
      && 1 <= rect.width
      && rect.x + rect.width <= img.width
  {
    var runs := Encode(img.pixels);
    EncodeRowsUniform(img.pixels, 0);
    Document(img.width, img.height, ViewBox(0, 0, img.width, img.height), true, RunsToRects(runs))
  }

  /** An image yields a document without rectangles exactly when all its
      pixels are fully transparent. */
  lemma NoRectsIffTransparent(img: Image)
    requires img.Valid()
    ensures ImageToSvg(img).rects == [] <==> img.AllTransparent()
  {
    EncodeEmptyIffTransparent(img.pixels);
  }

  // ---------------- Reading the document back ----------------

  /** The run a one-pixel-high rectangle paints: its colour channels come from
      the fill, its alpha from the opacity (255 when none is written). */
  function RectToRun(rect: Rect): Option<Run> {
    if rect.height != 1 then None
    else match ParseFill(rect.fill)
      case None => None
      case Some((r, g, b)) =>
        var a := if rect.opacity.Some? then (rect.opacity.value * 255.0).Floor else 255;
        if 0 <= a < 256 then Some(Run(rect.y, rect.x, rect.width, Rgba(r, g, b, a))) else None
  }

  lemma RectOfRunRoundTrip(r: Run)
    ensures RectToRun(RunToRect(r)) == Some(r)
  {
    var rect := RunToRect(r);
    if rect.opacity.Some? {
      assert rect.opacity.value * 255.0 == r.color.a as real;
    }
  }

  function RectsToRuns(rects: seq<Rect>): Option<seq<Run>>
    decreases |rects|
  {
    if rects == [] then Some([])
    else match (RectToRun(rects[0]), RectsToRuns(rects[1..]))
      case (Some(r), Some(rest)) => Some([r] + rest)
      case _ => None
  }

  lemma {:induction false} RectsOfRunsRoundTrip(runs: seq<Run>)
    ensures RectsToRuns(RunsToRects(runs)) == Some(runs)
    decreases |runs|
  {
    if runs != [] {
      var rects := RunsToRects(runs);
      RectOfRunRoundTrip(runs[0]);
      assert RectToRun(rects[0]) == Some(runs[0]);
      RectsOfRunsRoundTrip(runs[1..]);
      assert rects[1..] == RunsToRects(runs[1..]);
      assert RectsToRuns(rects) == Some([runs[0]] + runs[1..]);
      assert [runs[0]] + runs[1..] == runs;
    }
  }

  /** What a viewer shows: every rectangle painted, in document order, onto an
      all-transparent canvas of the document's size. */
  function Rasterize(doc: Document): Option<seq<seq<Rgba>>> {
    match RectsToRuns(doc.rects)
    case None => None
    case Some(runs) => Some(PaintAll(Blank(doc.width, doc.height), runs))
  }

  /** Pixel fidelity of the converter: rasterising the document reproduces
      the image, every fully transparent pixel reading as `Transparent`. */
  lemma SvgRoundTrip(img: Image)
    requires img.Valid()
    ensures Rasterize(ImageToSvg(img)) == Some(NormalizeGrid(img.pixels))
  {
    RectsOfRunsRoundTrip(Encode(img.pixels));
    RoundTrip(img);
  }

  // ---------------- The text written to the file ----------------

  const XmlDeclaration := "<?xml version=\"1.0\" encoding=\"UTF-8\"?>\n"
  const Footer := "</svg>\n"

  /** The header up to the width value, and the text between the width and
      the height values. */
  const WidthAttr := "<svg xmlns=\"http://www.w3.org/2000/svg\"" + " width=\""
  const HeightAttr := "\" height=\""

  /** The rest of the header after the height value. */
  function ViewBoxAttr(doc: Document): (t: string)
    ensures 0 < |t| && t[0] == '"'
  {
    "\" viewBox=\"" + NatToString(doc.viewBox.minX) + " " + NatToString(doc.viewBox.minY)
    + " " + NatToString(doc.viewBox.width) + " " + NatToString(doc.viewBox.height) + "\" "
    + (if doc.crispEdges then "shape-rendering=\"crispEdges\"" else "") + ">\n"
  }

  function HeaderText(doc: Document): string {
    WidthAttr + NatToString(doc.width) + HeightAttr + NatToString(doc.height) + ViewBoxAttr(doc)
  }

  /** The first column at or after `i` that does not hold a digit, or the
      end of `s`. */
  function DigitsEnd(s: string, i: nat): (e: nat)
    requires i <= |s|
    ensures i <= e <= |s|
    ensures forall j :: i <= j < e ==> IsDigit(s[j])
    ensures e == |s| || !IsDigit(s[e])
    decreases |s| - i
  {
    if i < |s| && IsDigit(s[i]) then DigitsEnd(s, i + 1) else i
  }

  /** Digits that stop before a non-digit are exactly what `DigitsEnd`
      scans over. */
  lemma {:induction false} DigitsEndIs(s: string, i: nat, e: nat)
    requires i <= e <= |s|
    requires forall j :: i <= j < e ==> IsDigit(s[j])
    requires e == |s| || !IsDigit(s[e])
    ensures DigitsEnd(s, i) == e
    decreases e - i
  {
    if i < e {
      DigitsEndIs(s, i + 1, e);
    }
  }

  /** Where the five parts of a concatenation lie in it. */
  lemma FiveParts(p: string, w: string, q: string, h: string, r: string)
    requires 0 < |r|
    ensures var s := p + w + q + h + r; var a, b, c, d := |p|, |p| + |w|, |p| + |w| + |q|, |p| + |w| + |q| + |h|;
      && |s| == d + |r|
      && s[..a] == p && s[a..b] == w && s[b..c] == q && s[c..d] == h && s[d] == r[0]
  {
  }

  /** The digits `w` written at column `a`, followed by a non-digit, are
      what `DigitsEnd` scans over from `a`. */
  lemma DigitsAt(s: string, a: nat, w: string)
    requires a + |w| <= |s| && s[a..a + |w|] == w && AllDigits(w)
    requires a + |w| == |s| || !IsDigit(s[a + |w|])
    ensures DigitsEnd(s, a) == a + |w|
  {
    forall j | a <= j < a + |w|
      ensures IsDigit(s[j])
    {
      assert s[j] == w[j - a];
    }
    DigitsEndIs(s, a, a + |w|);
  }

  /** Reads the `width` and `height` values back out of a header, as an SVG
      reader does. */
  function ReadSize(header: string): Option<(nat, nat)> {
    var a := |WidthAttr|;
    if |header| < a || header[..a] != WidthAttr then None
    else
      var b := DigitsEnd(header, a);
      var c := b + |HeightAttr|;
      if b == a || |header| < c || header[b..c] != HeightAttr then None
      else
        var d := DigitsEnd(header, c);
        if d == c then None
        else
          assert AllDigits(header[a..b]) && AllDigits(header[c..d]);
          Some((ParseNat(header[a..b]), ParseNat(header[c..d])))
  }

  /** The size written into the header reads back as the document's
      size. */
  lemma HeaderSizeRoundTrip(doc: Document)
    ensures ReadSize(HeaderText(doc)) == Some((doc.width, doc.height))
  {
    var w, h := NatToString(doc.width), NatToString(doc.height);
    var r := ViewBoxAttr(doc);
    FiveParts(WidthAttr, w, HeightAttr, h, r);
    var s := HeaderText(doc);
    DigitsAt(s, |WidthAttr|, w);
    DigitsAt(s, |WidthAttr| + |w| + |HeightAttr|, h);
    NatToStringRoundTrip(doc.width);
    NatToStringRoundTrip(doc.height);
  }

  /** Opacities are written with six decimals, which needs them
      non-negative. */
  predicate Writable(doc: Document) {
    forall k :: 0 <= k < |doc.rects| && doc.rects[k].opacity.Some? ==> 0.0 <= doc.rects[k].opacity.value
  }

  function RectText(rect: Rect): string
    requires rect.opacity.Some? ==> 0.0 <= rect.opacity.value
  {
    "  <rect x=\"" + NatToString(rect.x) + "\" y=\"" + NatToString(rect.y)
    + "\" width=\"" + NatToString(rect.width) + "\" height=\"" + NatToString(rect.height)
    + "\" fill=\"" + rect.fill + "\""
    + (if rect.opacity.Some? then " fill-opacity=\"" + Fixed6(rect.opacity.value) + "\"" else "")
    + "/>\n"
  }

  function RectsText(rects: seq<Rect>): string
    requires forall k :: 0 <= k < |rects| && rects[k].opacity.Some? ==> 0.0 <= rects[k].opacity.value
    decreases |rects|
  {
    if rects == [] then "" else RectText(rects[0]) + RectsText(rects[1..])
  }

  /** The file contents: the XML declaration, the header, the rectangles and
      the closing tag. */
  function Render(doc: Document): (text: string)
    requires Writable(doc)
    ensures |XmlDeclaration + HeaderText(doc)| + |Footer| <= |text|
    ensures text[..|XmlDeclaration + HeaderText(doc)|] == XmlDeclaration + HeaderText(doc)
    ensures text[|text| - |Footer|..] == Footer
    ensures doc.rects == [] ==> text == XmlDeclaration + HeaderText(doc) + Footer
    ensures text == XmlDeclaration + HeaderText(doc) + RectsText(doc.rects) + Footer
  {
    var head := XmlDeclaration + HeaderText(doc);
    var text := head + RectsText(doc.rects) + Footer;
    assert text[..|head|] == head;
    text
  }

  /** The text written for an image. An image without opaque pixels gets the
      header and the closing tag only. */
  function SvgText(img: Image): (text: string)
    requires img.Valid()
    ensures img.AllTransparent() ==> text == XmlDeclaration + HeaderText(ImageToSvg(img)) + Footer
  {
    NoRectsIffTransparent(img);
    Render(ImageToSvg(img))
  }

  // ---------------- Lines of the written text ----------------

  /** The number of line breaks in a text. */
  function Breaks(s: string): nat {
    if |s| == 0 then 0 else (if s[0] == '\n' then 1 else 0) + Breaks(s[1..])
  }

  lemma {:induction false} BreaksAppend(a: string, b: string)
    ensures Breaks(a + b) == Breaks(a) + Breaks(b)
  {
    if a == [] {
      assert a + b == b;
    } else {
      assert (a + b)[0] == a[0];
      assert (a + b)[1..] == a[1..] + b;
      BreaksAppend(a[1..], b);
    }
  }

  lemma {:induction false} NoBreaks(s: string)
    requires '\n' !in s
    ensures Breaks(s) == 0
  {
    if s != [] {
      assert s[0] != '\n';
      assert forall c :: c in s[1..] ==> c in s;
      NoBreaks(s[1..]);
    }
  }

  /** A text without line breaks, followed by a tail whose only line break
      is its last character, is one line. */
  lemma OneLine(t: string, e: string)
    requires '\n' !in t
    requires 0 < |e| && e[|e| - 1] == '\n' && '\n' !in e[..|e| - 1]
    ensures Breaks(t + e) == 1
  {
    var p := e[..|e| - 1];
    assert e == p + ['\n'];
    BreaksAppend(t, e);
    BreaksAppend(p, ['\n']);
    NoBreaks(t);
    NoBreaks(p);
  }

  /** Digits never hold a line break. */
  lemma DigitsOnOneLine(s: string)
    requires AllDigits(s)
    ensures '\n' !in s
  {
    forall i | 0 <= i < |s|
      ensures s[i] != '\n'
    {
      assert IsDigit(s[i]);
    }
  }

  /** A six-decimal opacity holds no line break. */
  lemma Fixed6OnOneLine(x: real)
    requires 0.0 <= x
    ensures '\n' !in Fixed6(x)
  {
    var n := Round6(x);
    DigitsOnOneLine(NatToString(n / 1000000));
    DigitsOnOneLine(PadDigits(n % 1000000, 6));
  }

  /** A rectangle whose fill holds no line break is written as exactly one
      line, closed by `/>`. */
  lemma RectTextOneLine(rect: Rect)
    requires rect.opacity.Some? ==> 0.0 <= rect.opacity.value
    requires '\n' !in rect.fill
    ensures Breaks(RectText(rect)) == 1
    ensures |RectText(rect)| >= 3 && RectText(rect)[|RectText(rect)| - 3..] == "/>\n"
  {
    DigitsOnOneLine(NatToString(rect.x));
    DigitsOnOneLine(NatToString(rect.y));
    DigitsOnOneLine(NatToString(rect.width));
    DigitsOnOneLine(NatToString(rect.height));
    var t := "  <rect x=\"" + NatToString(rect.x);
    assert '\n' !in t;
    t := t + "\" y=\"" + NatToString(rect.y);
    assert '\n' !in t;
    t := t + "\" width=\"" + NatToString(rect.width);
    assert '\n' !in t;
    t := t + "\" height=\"" + NatToString(rect.height);
    assert '\n' !in t;
    t := t + "\" fill=\"" + rect.fill + "\"";
    assert '\n' !in t;
    var o := if rect.opacity.Some? then " fill-opacity=\"" + Fixed6(rect.opacity.value) + "\"" else "";
    if rect.opacity.Some? {
      Fixed6OnOneLine(rect.opacity.value);
    }
    assert '\n' !in o;
    assert RectText(rect) == (t + o) + "/>\n";
    OneLine(t + o, "/>\n");
  }

  /** The rectangles are written one line each: as many line breaks as
      rectangles. */
  lemma {:induction false} RectsTextLines(rects: seq<Rect>)
    requires forall k :: 0 <= k < |rects| && rects[k].opacity.Some? ==> 0.0 <= rects[k].opacity.value
    requires forall k :: 0 <= k < |rects| ==> '\n' !in rects[k].fill
    ensures Breaks(RectsText(rects)) == |rects|
  {
    if rects != [] {
      RectTextOneLine(rects[0]);
      RectsTextLines(rects[1..]);
      BreaksAppend(RectText(rects[0]), RectsText(rects[1..]));
    }
  }

  /** The `width` and `height` attributes hold no line break. */
  lemma SizeAttrsNoBreak(w: nat, h: nat)
    ensures '\n' !in WidthAttr + NatToString(w) + HeightAttr + NatToString(h)
  {
    DigitsOnOneLine(NatToString(w));
    DigitsOnOneLine(NatToString(h));
    assert '\n' !in "<svg xmlns=\"http://www.w3.org/2000/svg\"" && '\n' !in " width=\"";
    assert '\n' !in HeightAttr;
  }

  /** The view box and the rest of the `<svg>` tag end its line. */
  lemma ViewBoxAttrOneLine(doc: Document)
    ensures Breaks(ViewBoxAttr(doc)) == 1
  {
    DigitsOnOneLine(NatToString(doc.viewBox.minX));
    DigitsOnOneLine(NatToString(doc.viewBox.minY));
    DigitsOnOneLine(NatToString(doc.viewBox.width));
    DigitsOnOneLine(NatToString(doc.viewBox.height));
    var v := "\" viewBox=\"" + NatToString(doc.viewBox.minX) + " " + NatToString(doc.viewBox.minY)
      + " " + NatToString(doc.viewBox.width) + " " + NatToString(doc.viewBox.height) + "\" "
      + (if doc.crispEdges then "shape-rendering=\"crispEdges\"" else "");
    assert '\n' !in v;
    assert ViewBoxAttr(doc) == v + ">\n";
    OneLine(v, ">\n");
  }

  /** The `<svg>` tag is one line. */
  lemma HeaderTextOneLine(doc: Document)
    ensures Breaks(HeaderText(doc)) == 1
  {
    var t := WidthAttr + NatToString(doc.width) + HeightAttr + NatToString(doc.height);
    SizeAttrsNoBreak(doc.width, doc.height);
    NoBreaks(t);
    ViewBoxAttrOneLine(doc);
    BreaksAppend(t, ViewBoxAttr(doc));
  }

  /** The XML declaration is one line. */
  lemma XmlDeclarationOneLine()
    ensures Breaks(XmlDeclaration) == 1
  {
    var p := "<?xml version=\"1.0\" encoding=\"UTF-8\"?>";
    assert '\n' !in p;
    assert XmlDeclaration == p + "\n";
    OneLine(p, "\n");
  }

  /** The closing tag is one line. */
  lemma FooterOneLine()
    ensures Breaks(Footer) == 1
  {
    assert Footer == "</svg>" + "\n";
    OneLine("</svg>", "\n");
  }

  /** A document is written as one line per rectangle, plus the XML
      declaration, the `<svg>` tag and the closing tag. */
  lemma RenderLines(doc: Document)
    requires Writable(doc)
    requires forall k :: 0 <= k < |doc.rects| ==> '\n' !in doc.rects[k].fill
    ensures Breaks(Render(doc)) == |doc.rects| + 3
  {
    var head := XmlDeclaration + HeaderText(doc);
    assert Breaks(head) == 2 by {
      XmlDeclarationOneLine();
      HeaderTextOneLine(doc);
      BreaksAppend(XmlDeclaration, HeaderText(doc));
    }
    RectsTextLines(doc.rects);
    FooterOneLine();
    BreaksAppend(head, RectsText(doc.rects));
    BreaksAppend(head + RectsText(doc.rects), Footer);
  }

  /** The file of an image has one line per run, plus the XML declaration,
      the `<svg>` tag and the closing tag. */
  lemma SvgTextLines(img: Image)
    requires img.Valid()
    ensures Breaks(SvgText(img)) == |Encode(img.pixels)| + 3
  {
    var doc := ImageToSvg(img);
    var runs := Encode(img.pixels);
    assert doc.rects == RunsToRects(runs);
    forall k | 0 <= k < |doc.rects|
      ensures '\n' !in doc.rects[k].fill
    {
      var f := doc.rects[k].fill;
      assert f == FillHex(runs[k].color.r, runs[k].color.g, runs[k].color.b);
      forall i | 0 <= i < |f|
        ensures f[i] != '\n'
      {
        if i > 0 {
          assert IsUpperHex(f[i]);
        }
      }
    }
    RenderLines(doc);
  }

  // ---------------- Worked examples ----------------

  /** A 3 x 1 image red, red, green gives two runs. */
  lemma RedRedGreenRuns()
    ensures var red, green := Rgba(255, 0, 0, 255), Rgba(0, 255, 0, 255);
      Encode([[red, red, green]]) == [Run(0, 0, 2, red), Run(0, 2, 1, green)]
  {
    var red, green := Rgba(255, 0, 0, 255), Rgba(0, 255, 0, 255);
    var row := [red, red, green];
    assert RunEnd(row, 1, red) == 2;
    assert RunEnd(row, 3, green) == 3;
    assert EncodeFrom(row, 0, 2) == [Run(0, 2, 1, green)];
    assert EncodeRow(row, 0) == [Run(0, 0, 2, red), Run(0, 2, 1, green)];
    assert EncodeRows([row], 0) == EncodeRow(row, 0) + EncodeRows([row], 1);
  }

  /** ... and two opaque rectangles, `#FF0000` of width 2 and `#00FF00` of
      width 1. */
  lemma RedRedGreenRects()
    ensures var red, green := Rgba(255, 0, 0, 255), Rgba(0, 255, 0, 255);
      ImageToSvg(Image(3, 1, [[red, red, green]])).rects
        == [Rect(0, 0, 2, 1, "#FF0000", None), Rect(2, 0, 1, 1, "#00FF00", None)]
  {
    var red, green := Rgba(255, 0, 0, 255), Rgba(0, 255, 0, 255);
    RedRedGreenRuns();
    assert Hex2(255) == "FF" && Hex2(0) == "00";
    assert RunToRect(Run(0, 0, 2, red)) == Rect(0, 0, 2, 1, "#FF0000", None);
    assert RunToRect(Run(0, 2, 1, green)) == Rect(2, 0, 1, 1, "#00FF00", None);
  }

  /** Alpha 128 is 0.50196078... */
  lemma HalfOpacityRounds()
    ensures Round6(Opacity(128)) == 501961
  {
  }

  lemma HalfOpacityDigits()
    ensures PadDigits(501961, 6) == "501961"
  {
  }

  /** A value below one is written as `0.` and six digits. */
  lemma Fixed6BelowOne(x: real)
    requires 0.0 <= x && Round6(x) < 1000000
    ensures Fixed6(x) == "0." + PadDigits(Round6(x), 6)
  {
    var n := Round6(x);
    assert n / 1000000 == 0;
    assert NatToString(0) == "0";
    assert "0" + "." == "0.";
  }

  /** Alpha 128 is written as `fill-opacity="0.501961"`. */
  lemma HalfOpacityText()
    ensures EmitsOpacity(128)
    ensures Fixed6(Opacity(128)) == "0.501961"
  {
    HalfOpacityRounds();
    HalfOpacityDigits();
    Fixed6BelowOne(Opacity(128));
  }

  /** A 2 x 2 fully transparent image gives a document of the right size
      without any rectangle. */
  lemma TransparentTwoByTwo()
    ensures var img := Image(2, 2, [[Transparent, Transparent], [Transparent, Transparent]]);
      && img.Valid()
      && ImageToSvg(img).rects == []
      && ImageToSvg(img).width == 2 && ImageToSvg(img).height == 2
      && ImageToSvg(img).viewBox == ViewBox(0, 0, 2, 2)
  {
    var img := Image(2, 2, [[Transparent, Transparent], [Transparent, Transparent]]);
    NoRectsIffTransparent(img);
  }
}
