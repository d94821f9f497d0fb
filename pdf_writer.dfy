/** The minimal document writer of src/pdf.rs: line wrapping, the UTF-16BE
    hex encoding of text, page content streams, pagination, and the
    serialiser that lays out the objects, the cross-reference table and
    the trailer (sections 7.5.4 and 7.5.5 of ISO 32000-1). */
module PdfWriter {
  import opened Wrappers
  import opened Strings
  import opened Seqs
  import PdfText

  // ---------------------------------------------------------------------
  // wrap_text
  // ---------------------------------------------------------------------

  /** `(495 / (11 * 0.55)) as usize`: characters per line. */
  const MaxChars: nat := 81
  /** `(742 / 16) as usize`: lines per page. */
  const MaxLinesPerPage: nat := 46

  /** The width wrap_text gives a character: 1 for ASCII, 2 otherwise. */
  function CharWidth(c: char): nat {
    if IsAsciiChar(c) then 1 else 2
  }

  /** The width of a line: the sum of its characters' widths. */
  function Width(s: string): nat
    decreases |s|
  {
    if s == [] then 0 else Width(s[..|s| - 1]) + CharWidth(s[|s| - 1])
  }

  lemma WidthSnoc(s: string, c: char)
    ensures Width(s + [c]) == Width(s) + CharWidth(c)
  {
    TakeSnoc(s, c);
  }

  /** The variables of wrap_text's loop: the finished lines and the line
      being filled (`count` is always its width). */
  datatype WrapState = WrapState(lines: seq<string>, current: string)

  /** One iteration of wrap_text's loop: a character that would take a
      non-empty line past `max` starts a new line. */
  function WrapStep(st: WrapState, c: char, max: nat): WrapState {
    if Width(st.current) + CharWidth(c) > max && st.current != [] then
      WrapState(st.lines + [st.current], [c])
    else
      WrapState(st.lines, st.current + [c])
  }

  /** The loop of wrap_text after the characters of `s`. */
  function WrapFold(s: string, max: nat): WrapState
    decreases |s|
  {
    if s == [] then WrapState([], [])
    else WrapStep(WrapFold(s[..|s| - 1], max), s[|s| - 1], max)
  }

  /** wrap_text: `[""]` for empty text; otherwise the finished lines and the
      last one. */
  function Wrap(text: string, max: nat): seq<string> {
    if text == [] then [[]]
    else
      var st := WrapFold(text, max);
      var lines := if st.current != [] then st.lines + [st.current] else st.lines;
      if lines == [] then [[]] else lines
  }

  /** A line fits: its width is at most `max`, or it is a single character
      too wide to share a line. */
  predicate Fits(line: string, max: nat) {
    Width(line) <= max || |line| == 1
  }

  /** What the loop keeps: the lines and the current line spell the input;
      no finished line is empty; every line fits; and each finished line
      was closed only because the next character would not fit on it. */
  predicate WrapInvariant(s: string, max: nat, st: WrapState) {
    && Flatten(st.lines) + st.current == s
    && (s != [] ==> st.current != [])
    && Fits(st.current, max)
    && Broken(st.lines, max)
    && (st.lines != [] ==>
         st.current != [] && Width(st.lines[|st.lines| - 1]) + CharWidth(st.current[0]) > max)
  }

  /** Every line is non-empty and fits. */
  predicate AllFit(lines: seq<string>, max: nat) {
    forall i :: 0 <= i < |lines| ==> lines[i] != [] && Fits(lines[i], max)
  }

  /** The lines fit, and every line but the last was closed because the
      first character of the next would not fit on it. */
  predicate Broken(lines: seq<string>, max: nat) {
    && AllFit(lines, max)
    && forall i :: 0 <= i < |lines| - 1 ==> Width(lines[i]) + CharWidth(lines[i + 1][0]) > max
  }

  lemma AllFitSnoc(lines: seq<string>, x: string, max: nat)
    requires AllFit(lines, max) && x != [] && Fits(x, max)
    ensures AllFit(lines + [x], max)
  {
    forall i | 0 <= i < |lines + [x]|
      ensures (lines + [x])[i] != [] && Fits((lines + [x])[i], max)
    {
      if i < |lines| { assert (lines + [x])[i] == lines[i]; }
    }
  }

  lemma BrokenSnoc(lines: seq<string>, x: string, max: nat)
    requires Broken(lines, max) && x != [] && Fits(x, max)
    requires lines != [] ==> Width(lines[|lines| - 1]) + CharWidth(x[0]) > max
    ensures Broken(lines + [x], max)
  {
    var r := lines + [x];
    AllFitSnoc(lines, x, max);
    forall i | 0 <= i < |r| - 1
      ensures Width(r[i]) + CharWidth(r[i + 1][0]) > max
    {
      assert r[i] == lines[i];
      if i < |lines| - 1 { assert r[i + 1] == lines[i + 1]; }
    }
  }

  /** Closing the current line keeps the invariant. */
  lemma WrapBreakKeeps(s: string, max: nat, st: WrapState, c: char)
    requires WrapInvariant(s, max, st)
    requires st.current != [] && Width(st.current) + CharWidth(c) > max
    ensures WrapInvariant(s + [c], max, WrapState(st.lines + [st.current], [c]))
  {
    FlattenSnoc(st.lines, st.current);
    BrokenSnoc(st.lines, st.current, max);
    WidthSnoc([], c);
    assert [] + [c] == [c];
  }

  /** Adding the character to the current line keeps the invariant. */
  lemma WrapExtendKeeps(s: string, max: nat, st: WrapState, c: char)
    requires WrapInvariant(s, max, st)
    requires !(st.current != [] && Width(st.current) + CharWidth(c) > max)
    ensures WrapInvariant(s + [c], max, WrapState(st.lines, st.current + [c]))
  {
    WidthSnoc(st.current, c);
    assert Flatten(st.lines) + (st.current + [c]) == s + [c];
    if st.current != [] {
      assert (st.current + [c])[0] == st.current[0];
    } else {
      assert st.current + [c] == [c];
    }
  }

  /** One iteration of the loop keeps the invariant. */
  lemma WrapStepKeeps(s: string, max: nat, st: WrapState, c: char)
    requires WrapInvariant(s, max, st)
    ensures WrapInvariant(s + [c], max, WrapStep(st, c, max))
  {
    if Width(st.current) + CharWidth(c) > max && st.current != [] {
      WrapBreakKeeps(s, max, st, c);
    } else {
      WrapExtendKeeps(s, max, st, c);
    }
  }

  lemma {:induction false} WrapFoldInvariant(s: string, max: nat)
    ensures WrapInvariant(s, max, WrapFold(s, max))
    decreases |s|
  {
    if s != [] {
      var init := s[..|s| - 1];
      var c := s[|s| - 1];
      WrapFoldInvariant(init, max);
      assert s == init + [c];
      WrapStepKeeps(init, max, WrapFold(init, max), c);
    }
  }

  /** For non-empty text, wrap_text returns the finished lines and the
      (non-empty) current one. */
  lemma WrapOfNonEmpty(text: string, max: nat)
    requires text != []
    ensures WrapInvariant(text, max, WrapFold(text, max))
    ensures Wrap(text, max) == WrapFold(text, max).lines + [WrapFold(text, max).current]
  {
    WrapFoldInvariant(text, max);
  }

  /** wrap_text never returns an empty list, and gives `[""]` for empty
      text. */
  lemma WrapNeverEmpty(text: string, max: nat)
    ensures |Wrap(text, max)| >= 1
    ensures text == [] <==> Wrap(text, max) == [[]]
  {
    if text != [] {
      WrapOfNonEmpty(text, max);
      var r := Wrap(text, max);
      assert r[|r| - 1] != [];
    }
  }

  /** For non-empty text the lines of wrap_text spell the text, none is
      empty, each fits, and each line but the last was closed only because
      the first character of the next would not fit on it. */
  lemma WrapLines(text: string, max: nat)
    requires text != []
    ensures var r := Wrap(text, max);
      && Flatten(r) == text
      && (forall i :: 0 <= i < |r| ==> r[i] != [] && Fits(r[i], max))
      && (forall i :: 0 <= i < |r| - 1 ==> Width(r[i]) + CharWidth(r[i + 1][0]) > max)
  {
    WrapOfNonEmpty(text, max);
    var st := WrapFold(text, max);
    FlattenSnoc(st.lines, st.current);
    BrokenSnoc(st.lines, st.current, max);
  }

  lemma WrapFoldPrefix(text: string, i: nat, max: nat)
    requires i < |text|
    ensures WrapFold(text[..i + 1], max) == WrapStep(WrapFold(text[..i], max), text[i], max)
  {
    assert text[..i + 1][..i] == text[..i];
  }

  /** wrap_text. */
  method WrapText(text: string, max: nat) returns (lines: seq<string>)
    ensures lines == Wrap(text, max)
  {
    if text == [] {
      return [[]];
    }
    lines := [];
    var current: string := [];
    var count := 0;
    var i := 0;
    while i < |text|
      invariant 0 <= i <= |text|
      invariant WrapFold(text[..i], max) == WrapState(lines, current)
      invariant count == Width(current)
      decreases |text| - i
    {
      var c := text[i];
      WrapFoldPrefix(text, i, max);
      var charWidth := if IsAsciiChar(c) then 1 else 2;
      if count + charWidth > max && current != [] {
        lines := lines + [current];
        current := [];
        count := 0;
      }
      WidthSnoc(current, c);
      current := current + [c];
      count := count + charWidth;
      i := i + 1;
    }
    assert text[..i] == text;
    if current != [] {
      lines := lines + [current];
    }
    if lines == [] {
      lines := [[]];
    }
  }

  // ---------------------------------------------------------------------
  // to_utf16be_hex
  // ---------------------------------------------------------------------

  /** An uppercase hexadecimal digit. */
  function HexDigit(d: nat): (c: char)
    requires d < 16
    ensures PdfText.HexDigitValue(c) == Some(d)
    ensures IsUpperHex(c)
  {
    "0123456789ABCDEF"[d]
  }

  /** `format!("{:04X}", n)` for `n` below 0x10000: exactly four digits. */
  function Hex4(n: nat): (r: string)
    requires n < 0x10000
    ensures |r| == 4
  {
    [HexDigit(n / 0x1000), HexDigit(n / 0x100 % 16), HexDigit(n / 16 % 16), HexDigit(n % 16)]
  }

  /** The high surrogate of a character outside the Basic Multilingual
      Plane: ten bits of `code - 0x10000` above the low ten, over 0xD800. */
  function High(code: int): (u: nat)
    requires 0x10000 <= code <= 0x10FFFF
    ensures 0xD800 <= u < 0xDC00
  {
    0xD800 + (code - 0x10000) / 0x400 % 0x400
  }

  /** The low surrogate: the low ten bits of `code - 0x10000`, over 0xDC00. */
  function Low(code: int): (u: nat)
    requires 0x10000 <= code <= 0x10FFFF
    ensures 0xDC00 <= u < 0xE000
  {
    0xDC00 + (code - 0x10000) % 0x400
  }

  /** The code unit(s) of one character: the code itself for the Basic
      Multilingual Plane, else a high and a low surrogate (section 2.1 of
      RFC 2781). */
  function CharHex(c: char): (r: string)
    ensures |r| == if c as int <= 0xFFFF then 4 else 8
  {
    if c as int <= 0xFFFF then Hex4(c as int)
    else Hex4(High(c as int)) + Hex4(Low(c as int))
  }

  /** The code units of every character of `s`, in order. */
  function UnitsHex(s: string): string {
    FlatMap(s, CharHex)
  }

  /** to_utf16be_hex: the byte order mark, then the code units of the text. */
  function Utf16Hex(s: string): string {
    "FEFF" + UnitsHex(s)
  }

  predicate IsUpperHex(c: char) {
    '0' <= c <= '9' || 'A' <= c <= 'F'
  }

  /** One more character's code units extend the output. */
  lemma UnitsHexStep(text: string, i: nat, hex: string, units: string)
    requires i < |text|
    requires hex == "FEFF" + UnitsHex(text[..i]) && units == CharHex(text[i])
    ensures hex + units == "FEFF" + UnitsHex(text[..i + 1])
  {
    FlatMapPrefix(text, i, CharHex);
  }

  /** to_utf16be_hex. */
  method ToUtf16BeHex(text: string) returns (hex: string)
    ensures hex == Utf16Hex(text)
  {
    hex := "FEFF";
    var i := 0;
    assert UnitsHex(text[..0]) == [];
    while i < |text|
      invariant 0 <= i <= |text|
      invariant hex == "FEFF" + UnitsHex(text[..i])
      decreases |text| - i
    {
      var code := text[i] as int;
      var units: string;
      if code <= 0xFFFF {
        units := Hex4(code);
      } else {
        units := Hex4(High(code)) + Hex4(Low(code));
      }
      UnitsHexStep(text, i, hex, units);
      hex := hex + units;
      i := i + 1;
    }
    assert text[..i] == text;
    assert hex == "FEFF" + UnitsHex(text);
  }

  /** The characters of the Basic Multilingual Plane in `s`, in order. */
  function BmpOnly(s: string): (r: string)
    ensures |r| <= |s|
    decreases |s|
  {
    if s == [] then []
    else BmpOnly(s[..|s| - 1]) + (if s[|s| - 1] as int <= 0xFFFF then [s[|s| - 1]] else [])
  }

  lemma HexDigitsSnoc(d: string, x: char)
    requires d != [] && PdfText.HexDigits(d).Some? && PdfText.HexDigitValue(x).Some?
    ensures PdfText.HexDigits(d + [x]) ==
      Some(PdfText.HexDigits(d).value * 16 + PdfText.HexDigitValue(x).value)
  {
    TakeSnoc(d, x);
  }

  lemma DigitsOf(n: nat)
    requires n < 0x10000
    ensures n / 0x1000 < 16
    ensures n / 0x1000 * 16 + n / 0x100 % 16 == n / 0x100
    ensures n / 0x100 * 16 + n / 16 % 16 == n / 16
    ensures n / 16 * 16 + n % 16 == n
    ensures ((n / 0x1000 * 16 + n / 0x100 % 16) * 16 + n / 16 % 16) * 16 + n % 16 == n
  {
  }

  /** Four hex digits, without a sign, parse to their positional value. */
  lemma ParseFour(s: string)
    requires |s| == 4 && s[0] != '+'
    requires forall i :: 0 <= i < 4 ==> PdfText.HexDigitValue(s[i]).Some?
    ensures PdfText.ParseHex(s) == Some(((PdfText.HexDigitValue(s[0]).value * 16
      + PdfText.HexDigitValue(s[1]).value) * 16 + PdfText.HexDigitValue(s[2]).value) * 16
      + PdfText.HexDigitValue(s[3]).value)
  {
    var v0, v1, v2, v3 := PdfText.HexDigitValue(s[0]).value, PdfText.HexDigitValue(s[1]).value,
      PdfText.HexDigitValue(s[2]).value, PdfText.HexDigitValue(s[3]).value;
    var p1, p2, p3 := s[..1], s[..2], s[..3];
    assert p2[..1] == p1 && p3[..2] == p2 && s[..3] == p3;
    assert PdfText.HexDigits(p1) == Some(v0);
    assert PdfText.HexDigits(p2) == Some(v0 * 16 + v1);
    assert PdfText.HexDigits(p3) == Some((v0 * 16 + v1) * 16 + v2);
    assert PdfText.HexDigits(s) == Some(((v0 * 16 + v1) * 16 + v2) * 16 + v3);
  }

  /** The four upper-case digits of `q0 .. q3` parse to their positional value `v`. */
  lemma FourDigits(q0: nat, q1: nat, q2: nat, q3: nat, v: nat)
    requires q0 < 16 && q1 < 16 && q2 < 16 && q3 < 16
    requires v == ((q0 * 16 + q1) * 16 + q2) * 16 + q3
    ensures PdfText.ParseHex([HexDigit(q0), HexDigit(q1), HexDigit(q2), HexDigit(q3)]) == Some(v)
  {
    ParseFour([HexDigit(q0), HexDigit(q1), HexDigit(q2), HexDigit(q3)]);
  }

  /** The hex digits of a code unit read back as that code unit. */
  lemma Hex4Parses(n: nat)
    requires n < 0x10000
    ensures PdfText.ParseHex(Hex4(n)) == Some(n)
  {
    DigitsOf(n);
    FourDigits(n / 0x1000, n / 0x100 % 16, n / 16 % 16, n % 16, n);
  }

  /** One group of four digits, as the reader's UTF-16 attempt sees it. */
  lemma Hex4Unit(n: nat)
    requires n < 0x10000
    ensures PdfText.Utf16Chars(Hex4(n)) == if PdfText.IsScalar(n) then [n as char] else []
  {
    Hex4Parses(n);
    var h := Hex4(n);
    assert h[..0] == [] && h[0..] == h;
  }

  /** A character of the Basic Multilingual Plane comes back; the two
      surrogate units of any other character are both dropped. */
  lemma CharHexUnits(c: char)
    ensures |CharHex(c)| % 4 == 0
    ensures PdfText.Utf16Chars(CharHex(c)) == if c as int <= 0xFFFF then [c] else []
  {
    var code := c as int;
    if code <= 0xFFFF {
      Hex4Unit(code);
    } else {
      Hex4Unit(High(code));
      Hex4Unit(Low(code));
      PdfText.Utf16CharsAppend(Hex4(High(code)), Hex4(Low(code)));
    }
  }

  lemma Mod4Sum(x: nat, y: nat)
    requires x % 4 == 0 && y % 4 == 0
    ensures (x + y) % 4 == 0
  {
  }

  lemma {:induction false} UnitsHexUnits(s: string)
    ensures |UnitsHex(s)| % 4 == 0
    ensures PdfText.Utf16Chars(UnitsHex(s)) == BmpOnly(s)
    decreases |s|
  {
    if s != [] {
      var init := s[..|s| - 1];
      var c := s[|s| - 1];
      var a, b := UnitsHex(init), CharHex(c);
      UnitsHexUnits(init);
      CharHexUnits(c);
      Mod4Sum(|a|, |b|);
      PdfText.Utf16CharsAppend(a, b);
      assert UnitsHex(s) == a + b;
      assert BmpOnly(s) == BmpOnly(init) + (if c as int <= 0xFFFF then [c] else []);
    }
  }

  predicate AllUpperHex(s: string) {
    forall i :: 0 <= i < |s| ==> IsUpperHex(s[i])
  }

  lemma AllUpperHexAppend(a: string, b: string)
    requires AllUpperHex(a) && AllUpperHex(b)
    ensures AllUpperHex(a + b)
  {
    forall i | 0 <= i < |a + b| ensures IsUpperHex((a + b)[i]) {
      if i >= |a| { assert (a + b)[i] == b[i - |a|]; }
    }
  }

  /** Every string the encoder writes opens with the byte order mark,
      written as the four digits of the code unit 0xFEFF. */
  lemma BomHex(s: string)
    ensures Hex4(0xFEFF) == "FEFF"
    ensures |Utf16Hex(s)| >= 4 && Utf16Hex(s)[..4] == Hex4(0xFEFF)
  {
    assert 0xFEFF / 0x1000 == 15 && 0xFEFF / 0x100 % 16 == 14;
    assert 0xFEFF / 16 % 16 == 15 && 0xFEFF % 16 == 15;
    assert HexDigit(15) == 'F' && HexDigit(14) == 'E';
  }

  lemma Hex4Upper(n: nat)
    requires n < 0x10000
    ensures AllUpperHex(Hex4(n))
  {
  }

  lemma CharHexUpper(c: char)
    ensures AllUpperHex(CharHex(c))
  {
    if c as int <= 0xFFFF {
      Hex4Upper(c as int);
    } else {
      Hex4Upper(High(c as int));
      Hex4Upper(Low(c as int));
      AllUpperHexAppend(Hex4(High(c as int)), Hex4(Low(c as int)));
    }
  }

  lemma {:induction false} UnitsHexShape(s: string)
    ensures AllUpperHex(UnitsHex(s))
    ensures |UnitsHex(s)| == 4 * |BmpOnly(s)| + 8 * (|s| - |BmpOnly(s)|)
    decreases |s|
  {
    if s != [] {
      var init, c := s[..|s| - 1], s[|s| - 1];
      UnitsHexShape(init);
      CharHexUpper(c);
      AllUpperHexAppend(UnitsHex(init), CharHex(c));
      assert UnitsHex(s) == UnitsHex(init) + CharHex(c);
      assert BmpOnly(s) == BmpOnly(init) + (if c as int <= 0xFFFF then [c] else []);
    }
  }

  /** Every character of to_utf16be_hex's output is an uppercase
      hexadecimal digit, and there are four per code unit: four for the
      byte order mark, four per character of the Basic Multilingual Plane
      and eight per other character. */
  lemma Utf16HexShape(s: string)
    ensures AllUpperHex(Utf16Hex(s))
    ensures |Utf16Hex(s)| == 4 + 4 * |BmpOnly(s)| + 8 * (|s| - |BmpOnly(s)|)
  {
    UnitsHexShape(s);
    assert AllUpperHex("FEFF");
    AllUpperHexAppend("FEFF", UnitsHex(s));
    assert Utf16Hex(s) == "FEFF" + UnitsHex(s);
  }

  lemma UpperHexPlain(h: string)
    requires AllUpperHex(h)
    ensures RemoveSpaces(h) == h && IsAscii(h)
  {
    RemoveSpacesNoSpace(h);
  }

  /** The code units of the encoder's output, read four digits at a time:
      the byte order mark, then the characters of the Basic Multilingual
      Plane. */
  lemma Utf16HexUnits(s: string)
    ensures |Utf16Hex(s)| % 4 == 0
    ensures PdfText.Utf16Chars(Utf16Hex(s)) == ['\U{FEFF}'] + BmpOnly(s)
  {
    UnitsHexUnits(s);
    BomUnit();
    PdfText.Utf16CharsAppend("FEFF", UnitsHex(s));
    Mod4Sum(4, |UnitsHex(s)|);
  }

  /** The byte order mark's digits read back as U+FEFF. */
  lemma BomUnit()
    ensures PdfText.Utf16Chars("FEFF") == ['\U{FEFF}']
  {
    BomHex([]);
    Hex4Unit(0xFEFF);
  }

  /** Reading the encoder's output back with decode_hex_string gives the
      byte order mark followed by the characters of the Basic Multilingual
      Plane; characters outside it are lost, since their surrogate units
      are not characters. */
  lemma Utf16HexRoundTrip(s: string)
    ensures PdfText.DecodeHex(Utf16Hex(s)) == Returns(Some(['\U{FEFF}'] + BmpOnly(s)))
  {
    Utf16HexShape(s);
    UpperHexPlain(Utf16Hex(s));
    Utf16HexUnits(s);
    PdfText.DecodeHexUtf16(Utf16Hex(s));
  }

  /** A line `<hex> Tj` holding the encoder's output is read by
      extract_text_operator as a hex string, not a literal one (it has no
      `(`), and gives back the byte order mark and the characters of the
      Basic Multilingual Plane. */
  lemma HexTjRoundTrip(s: string)
    ensures PdfText.ExtractOp("<" + Utf16Hex(s) + "> Tj") == Returns(Some(['\U{FEFF}'] + BmpOnly(s)))
  {
    var h := Utf16Hex(s);
    Utf16HexShape(s);
    forall j | 0 <= j < |h| ensures h[j] != '(' && h[j] != '<' && h[j] != '>' {
      assert IsUpperHex(h[j]);
    }
    PdfText.HexTjLine(h);
    Utf16HexRoundTrip(s);
  }

  // ---------------------------------------------------------------------
  // create_page_stream
  // ---------------------------------------------------------------------

  /** A line that `str::lines` gives back unchanged when it is followed by a
      newline: no newline inside, no carriage return at the end. */
  predicate PlainLine(t: string) {
    '\n' !in t && (t == [] || t[|t| - 1] != '\r')
  }

  function Terminate(t: string): string {
    t + "\n"
  }

  lemma FindAfterPlain(t: string, rest: string)
    requires '\n' !in t
    ensures Find(t + "\n" + rest, '\n') == Some(|t|)
    decreases |t|
  {
    if t != [] {
      FindAfterPlain(t[1..], rest);
      assert (t + "\n" + rest)[1..] == t[1..] + "\n" + rest;
    }
  }

  /** `str::lines` takes a plain line and its newline off the front. */
  lemma LinesCons(t: string, rest: string)
    requires PlainLine(t)
    ensures Lines(t + "\n" + rest) == [t] + Lines(rest)
  {
    var s := t + "\n" + rest;
    FindAfterPlain(t, rest);
    assert s[..|t|] == t;
    assert s[|t| + 1..] == rest;
    assert StripCR(t) == t;
  }

  /** The last line of `ts` and its newline, moved in front of `rest`. */
  lemma TerminatedLast(ts: seq<string>, rest: string)
    requires ts != []
    ensures FlatMap(ts, Terminate) + rest
      == FlatMap(ts[..|ts| - 1], Terminate) + (ts[|ts| - 1] + "\n" + rest)
  {
  }

  /** `str::lines` splits newline-terminated plain lines back apart. */
  lemma {:induction false} LinesTerminated(ts: seq<string>, rest: string)
    requires forall i :: 0 <= i < |ts| ==> PlainLine(ts[i])
    ensures Lines(FlatMap(ts, Terminate) + rest) == ts + Lines(rest)
    decreases |ts|
  {
    if ts == [] {
      assert FlatMap(ts, Terminate) + rest == rest;
    } else {
      var init, t := ts[..|ts| - 1], ts[|ts| - 1];
      TerminatedLast(ts, rest);
      LinesTerminated(init, t + "\n" + rest);
      LinesCons(t, rest);
      LinesTerminatedJoin(ts, Lines(rest));
    }
  }

  lemma LinesTerminatedJoin(ts: seq<string>, tail: seq<string>)
    requires ts != []
    ensures ts[..|ts| - 1] + ([ts[|ts| - 1]] + tail) == ts + tail
  {
    SplitLast(ts);
  }

  /** The text state set at the top of every page: font F1 at 11 points,
      16-point leading, the text origin at (50, 792). Rust's `Display` of
      the `f64` values 11.0, 16.0, 50.0 and 792.0 prints no fraction. */
  const PreambleLines: seq<string> := ["BT", "/F1 11 Tf", "16 TL", "1 0 0 1 50 792 Tm"]

  /** The operator line of one text line: `T*` (next line) for an empty
      line, else the text as a hex string shown with `Tj`, then `T*`. */
  function LineOpText(line: string): string {
    if line == [] then "T*" else "<" + Utf16Hex(line) + "> Tj T*"
  }

  /** The lines of a page's content stream. */
  function StreamLines(lines: seq<string>): seq<string> {
    PreambleLines + Map(lines, LineOpText) + ["ET"]
  }

  /** create_page_stream: the lines of the stream, each ended by a newline. */
  function PageStream(lines: seq<string>): string {
    FlatMap(StreamLines(lines), Terminate)
  }

  /** The four preamble lines, pushed one by one. */
  lemma PreambleText()
    ensures FlatMap(PreambleLines, Terminate) == "BT\n" + "/F1 11 Tf\n" + "16 TL\n" + "1 0 0 1 50 792 Tm\n"
  {
    FlatMapSnoc([], "BT", Terminate);
    assert [] + ["BT"] == ["BT"];
    FlatMapSnoc(["BT"], "/F1 11 Tf", Terminate);
    assert ["BT"] + ["/F1 11 Tf"] == ["BT", "/F1 11 Tf"];
    FlatMapSnoc(["BT", "/F1 11 Tf"], "16 TL", Terminate);
    assert ["BT", "/F1 11 Tf"] + ["16 TL"] == ["BT", "/F1 11 Tf", "16 TL"];
    FlatMapSnoc(["BT", "/F1 11 Tf", "16 TL"], "1 0 0 1 50 792 Tm", Terminate);
    assert ["BT", "/F1 11 Tf", "16 TL"] + ["1 0 0 1 50 792 Tm"] == PreambleLines;
  }

  /** One more operator line. */
  lemma StreamStep(lines: seq<string>, i: nat)
    requires i < |lines|
    ensures FlatMap(PreambleLines + Map(lines[..i + 1], LineOpText), Terminate)
      == FlatMap(PreambleLines + Map(lines[..i], LineOpText), Terminate) + (LineOpText(lines[i]) + "\n")
  {
    MapPrefix(lines, i, LineOpText);
    var m := Map(lines[..i], LineOpText);
    assert PreambleLines + Map(lines[..i + 1], LineOpText) == (PreambleLines + m) + [LineOpText(lines[i])];
    FlatMapSnoc(PreambleLines + m, LineOpText(lines[i]), Terminate);
  }

  /** The closing `ET`. */
  lemma StreamEnd(lines: seq<string>)
    ensures PageStream(lines) == FlatMap(PreambleLines + Map(lines, LineOpText), Terminate) + "ET\n"
  {
    FlatMapSnoc(PreambleLines + Map(lines, LineOpText), "ET", Terminate);
  }

  /** create_page_stream with the constant font size, leading and origin
      of prepare_pages. */
  method CreatePageStream(lines: seq<string>) returns (stream: string)
    ensures stream == PageStream(lines)
  {
    stream := [];
    stream := stream + "BT\n";
    stream := stream + "/F1 11 Tf\n";
    stream := stream + "16 TL\n";
    stream := stream + "1 0 0 1 50 792 Tm\n";
    PreambleText();
    assert lines[..0] == [] && PreambleLines + Map(lines[..0], LineOpText) == PreambleLines;
    var i := 0;
    while i < |lines|
      invariant 0 <= i <= |lines|
      invariant stream == FlatMap(PreambleLines + Map(lines[..i], LineOpText), Terminate)
      decreases |lines| - i
    {
      var op: string;
      if lines[i] == [] {
        op := "T*";
      } else {
        var hex := ToUtf16BeHex(lines[i]);
        op := "<" + hex + "> Tj T*";
      }
      StreamStep(lines, i);
      stream := stream + (op + "\n");
      i := i + 1;
    }
    assert lines[..i] == lines;
    StreamEnd(lines);
    stream := stream + "ET\n";
  }

  lemma UpperHexNoNewline(h: string)
    requires AllUpperHex(h)
    ensures '\n' !in h
  {
    forall k | 0 <= k < |h|
      ensures h[k] != '\n'
    {
      assert IsUpperHex(h[k]);
    }
  }

  lemma NoNewlineAppend(a: string, b: string)
    requires '\n' !in a && '\n' !in b
    ensures '\n' !in a + b
  {
    forall k | 0 <= k < |a + b|
      ensures (a + b)[k] != '\n'
    {
      if k < |a| { assert (a + b)[k] == a[k]; } else { assert (a + b)[k] == b[k - |a|]; }
    }
  }

  lemma OpTextPlain(line: string)
    ensures PlainLine(LineOpText(line))
  {
    if line != [] {
      var h := Utf16Hex(line);
      Utf16HexShape(line);
      UpperHexNoNewline(h);
      NoNewlineAppend("<", h);
      NoNewlineAppend("<" + h, "> Tj T*");
      var t := "<" + h + "> Tj T*";
      assert t[|t| - 1] == '*';
    }
  }

  predicate AllPlain(ts: seq<string>) {
    forall i :: 0 <= i < |ts| ==> PlainLine(ts[i])
  }

  lemma AllPlainAppend(a: seq<string>, b: seq<string>)
    requires AllPlain(a) && AllPlain(b)
    ensures AllPlain(a + b)
  {
    forall i | 0 <= i < |a + b| ensures PlainLine((a + b)[i]) {
      if i >= |a| { assert (a + b)[i] == b[i - |a|]; }
    }
  }

  lemma PlainLiteral(t: string)
    requires forall i :: 0 <= i < |t| ==> t[i] != '\n' && t[i] != '\r'
    ensures PlainLine(t)
  {
  }

  lemma PreamblePlain()
    ensures AllPlain(PreambleLines)
  {
    PlainLiteral("BT");
    PlainLiteral("/F1 11 Tf");
    PlainLiteral("16 TL");
    PlainLiteral("1 0 0 1 50 792 Tm");
  }

  lemma OpTextsPlain(lines: seq<string>)
    ensures AllPlain(Map(lines, LineOpText))
  {
    forall i | 0 <= i < |lines| ensures PlainLine(Map(lines, LineOpText)[i]) {
      OpTextPlain(lines[i]);
    }
  }

  /** Reading a page's content stream back with `str::lines` gives the
      preamble, one operator line per text line, in order, and `ET`. */
  lemma PageStreamLines(lines: seq<string>)
    ensures Lines(PageStream(lines)) == StreamLines(lines)
  {
    PreamblePlain();
    OpTextsPlain(lines);
    PlainLiteral("ET");
    AllPlainAppend(PreambleLines, Map(lines, LineOpText));
    AllPlainAppend(PreambleLines + Map(lines, LineOpText), ["ET"]);
    LinesTerminated(StreamLines(lines), []);
    assert PageStream(lines) + [] == PageStream(lines);
  }

  /** A line the reader's heuristics pass over: it is its own trim and does
      not end in `j` or `J`, so it is no `Tj` or `TJ` operator. */
  predicate QuietLine(l: string) {
    && l != []
    && !IsWhitespace(l[0]) && !IsWhitespace(l[|l| - 1])
    && l[|l| - 1] != 'j' && l[|l| - 1] != 'J'
  }

  lemma QuietOpLine(line: string)
    ensures QuietLine(LineOpText(line))
  {
    if line != [] {
      var t := "<" + Utf16Hex(line) + "> Tj T*";
      assert t[0] == '<' && t[|t| - 1] == '*';
    }
  }

  predicate AllQuiet(ts: seq<string>) {
    forall i :: 0 <= i < |ts| ==> QuietLine(ts[i])
  }

  lemma AllQuietAppend(a: seq<string>, b: seq<string>)
    requires AllQuiet(a) && AllQuiet(b)
    ensures AllQuiet(a + b)
  {
    forall i | 0 <= i < |a + b| ensures QuietLine((a + b)[i]) {
      if i >= |a| { assert (a + b)[i] == b[i - |a|]; }
    }
  }

  lemma QuietStream(lines: seq<string>)
    ensures AllQuiet(StreamLines(lines))
  {
    assert AllQuiet(PreambleLines);
    forall i | 0 <= i < |lines| ensures QuietLine(Map(lines, LineOpText)[i]) {
      QuietOpLine(lines[i]);
    }
    AllQuietAppend(PreambleLines, Map(lines, LineOpText));
    assert AllQuiet(["ET"]);
    AllQuietAppend(PreambleLines + Map(lines, LineOpText), ["ET"]);
  }

  /** Quiet lines are their own trim and add no text. */
  lemma QuietLinesRead(ts: seq<string>)
    requires AllQuiet(ts)
    ensures PdfText.TrimLines(ts) == ts
    ensures forall i :: 0 <= i < |ts| ==> PdfText.OpText(ts[i]) == Returns([])
  {
    forall i | 0 <= i < |ts|
      ensures PdfText.TrimLines(ts)[i] == ts[i]
      ensures PdfText.OpText(ts[i]) == Returns([])
    {
      TrimNoop(ts[i]);
      PdfText.OpTextOtherEnd(ts[i]);
    }
  }

  /** The reader's text extraction finds no text on a page this writer
      produced: every text line is shown by a line ending in `Tj T*`, and
      the reader only looks at lines ending in `Tj` or `TJ`. */
  lemma WrittenPageHasNoText(lines: seq<string>)
    ensures PdfText.ExtractText(PageStream(lines)) == Returns([])
  {
    PageStreamLines(lines);
    QuietStream(lines);
    QuietLinesRead(StreamLines(lines));
    PdfText.ScanSilent(StreamLines(lines), PdfText.OpText);
  }

  // ---------------------------------------------------------------------
  // prepare_pages
  // ---------------------------------------------------------------------

  function WrapLine(line: string): seq<string> {
    Wrap(line, MaxChars)
  }

  /** Every line of the content, wrapped, in order. */
  function WrappedLines(content: string): seq<string> {
    FlatMap(Lines(content), WrapLine)
  }

  /** The variables of prepare_pages' loop: the lines of the pages already
      finished and those of the page being filled. */
  datatype PageState = PageState(pages: seq<seq<string>>, current: seq<string>)

  /** One wrapped line: a full page is closed first. */
  function PageStep(st: PageState, w: string): PageState {
    if |st.current| >= MaxLinesPerPage then PageState(st.pages + [st.current], [w])
    else PageState(st.pages, st.current + [w])
  }

  function PageFold(ws: seq<string>): PageState
    decreases |ws|
  {
    if ws == [] then PageState([], [])
    else PageStep(PageFold(ws[..|ws| - 1]), ws[|ws| - 1])
  }

  /** The lines of each page prepare_pages emits: the last page is pushed
      when it has lines or when there is no page at all. */
  function Paginate(ws: seq<string>): seq<seq<string>> {
    var st := PageFold(ws);
    if st.current != [] || st.pages == [] then st.pages + [st.current] else st.pages
  }

  /** prepare_pages: one content stream per page. */
  function PreparedPages(content: string): seq<string> {
    Map(Paginate(WrappedLines(content)), PageStream)
  }

  /** What prepare_pages' loop keeps: the pages and the current page spell
      the wrapped lines so far, every finished page is full, the current
      page is not over-full and, once a line has been seen, not empty. */
  predicate PageInvariant(ws: seq<string>, st: PageState) {
    && Flatten(st.pages) + st.current == ws
    && (forall i :: 0 <= i < |st.pages| ==> |st.pages[i]| == MaxLinesPerPage)
    && |st.current| <= MaxLinesPerPage
    && (ws != [] ==> st.current != [])
  }

  lemma PageStepKeeps(ws: seq<string>, st: PageState, w: string)
    requires PageInvariant(ws, st)
    ensures PageInvariant(ws + [w], PageStep(st, w))
  {
    if |st.current| >= MaxLinesPerPage {
      FlattenAppend(st.pages, [st.current]);
      FlattenOne(st.current);
      assert Flatten(st.pages + [st.current]) + [w] == ws + [w];
    } else {
      assert Flatten(st.pages) + (st.current + [w]) == ws + [w];
    }
  }

  lemma {:induction false} PageFoldInvariant(ws: seq<string>)
    ensures PageInvariant(ws, PageFold(ws))
    decreases |ws|
  {
    if ws != [] {
      PageFoldInvariant(ws[..|ws| - 1]);
      PageStepKeeps(ws[..|ws| - 1], PageFold(ws[..|ws| - 1]), ws[|ws| - 1]);
      SplitLast(ws);
    }
  }

  /** Pagination is chunking: a single empty page when there are no lines,
      else consecutive pages of MaxLinesPerPage lines, the last one
      possibly shorter. */
  lemma PaginateIsChunks(ws: seq<string>)
    ensures Paginate(ws) == if ws == [] then [[]] else Chunks(ws, MaxLinesPerPage)
  {
    if ws != [] {
      PageFoldInvariant(ws);
      var st := PageFold(ws);
      ChunksOfFull(st.pages, st.current, MaxLinesPerPage);
    }
  }

  /** prepare_pages always yields at least one page; the pages hold the
      wrapped lines in order, at most MaxLinesPerPage each, and no page is
      empty unless it is the only one and there are no lines at all. */
  lemma PaginateProperties(ws: seq<string>)
    ensures |Paginate(ws)| >= 1
    ensures Flatten(Paginate(ws)) == ws
    ensures forall i :: 0 <= i < |Paginate(ws)| ==> |Paginate(ws)[i]| <= MaxLinesPerPage
    ensures forall i :: 0 <= i < |Paginate(ws)| - 1 ==> |Paginate(ws)[i]| == MaxLinesPerPage
    ensures Paginate(ws) == [[]] <==> ws == []
  {
    PaginateIsChunks(ws);
    if ws == [] {
      FlattenOne<string>([]);
    } else {
      ChunksProperties(ws, MaxLinesPerPage);
    }
  }

  lemma PageFoldSnoc(ws: seq<string>, w: string)
    ensures PageFold(ws + [w]) == PageStep(PageFold(ws), w)
  {
    TakeSnoc(ws, w);
  }

  lemma WrappedPrefix(lines: seq<string>, j: nat)
    requires j < |lines|
    ensures FlatMap(lines[..j + 1], WrapLine) == FlatMap(lines[..j], WrapLine) + WrapLine(lines[j])
  {
    FlatMapPrefix(lines, j, WrapLine);
  }

  lemma PrefixSnoc(a: seq<string>, w: seq<string>, k: nat)
    requires k < |w|
    ensures (a + w[..k]) + [w[k]] == a + w[..k + 1]
  {
  }

  /** The inner loop of prepare_pages: the wrapped lines of one content
      line go onto the pages, a full page being closed first. */
  method PushWrapped(wrapped: seq<string>, ghost before: seq<string>, ghost done0: seq<seq<string>>,
                     pages0: seq<string>, current0: seq<string>)
    returns (ghost done: seq<seq<string>>, pages: seq<string>, current: seq<string>)
    requires PageFold(before) == PageState(done0, current0) && pages0 == Map(done0, PageStream)
    ensures PageFold(before + wrapped) == PageState(done, current) && pages == Map(done, PageStream)
  {
    done, pages, current := done0, pages0, current0;
    assert before + wrapped[..0] == before;
    var k := 0;
    while k < |wrapped|
      invariant 0 <= k <= |wrapped|
      invariant PageFold(before + wrapped[..k]) == PageState(done, current)
      invariant pages == Map(done, PageStream)
      decreases |wrapped| - k
    {
      PageFoldSnoc(before + wrapped[..k], wrapped[k]);
      PrefixSnoc(before, wrapped, k);
      if |current| >= MaxLinesPerPage {
        var stream := CreatePageStream(current);
        MapSnoc(done, current, PageStream);
        pages := pages + [stream];
        done := done + [current];
        current := [];
      }
      current := current + [wrapped[k]];
      k := k + 1;
    }
    assert wrapped[..k] == wrapped;
  }

  /** prepare_pages. */
  method PreparePages(content: string) returns (pages: seq<string>)
    ensures pages == PreparedPages(content)
  {
    var lines := Lines(content);
    pages := [];
    var current: seq<string> := [];
    ghost var done: seq<seq<string>> := [];
    var j := 0;
    while j < |lines|
      invariant 0 <= j <= |lines|
      invariant PageFold(FlatMap(lines[..j], WrapLine)) == PageState(done, current)
      invariant pages == Map(done, PageStream)
      decreases |lines| - j
    {
      var wrapped := WrapText(lines[j], MaxChars);
      done, pages, current := PushWrapped(wrapped, FlatMap(lines[..j], WrapLine), done, pages, current);
      WrappedPrefix(lines, j);
      j := j + 1;
    }
    assert lines[..j] == lines;
    if current != [] || pages == [] {
      var stream := CreatePageStream(current);
      MapSnoc(done, current, PageStream);
      pages := pages + [stream];
      done := done + [current];
    }
  }
}
