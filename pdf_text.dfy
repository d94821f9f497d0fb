/** Text extraction from PDF content streams (src/pdf.rs): the literal-string
    escape decoder (a simplified subset of section 7.3.4.2 of ISO 32000-1),
    the hexadecimal-string decoder, the `Tj`/`TJ` operator extractor and the
    line-oriented `BT`/`ET` state machine. */
module PdfText {
  import opened Wrappers
  import opened Strings
  import opened Seqs

  // ---------------------------------------------------------------------
  // Literal strings: decode_pdf_string
  // ---------------------------------------------------------------------

  /** The character an escape `\c` stands for: `\n`, `\r` and `\t` are
      control characters; `\\`, `\(`, `\)` and every other escaped character
      stand for themselves. */
  function Unescape(c: char): char {
    match c
    case 'n' => '\n'
    case 'r' => '\r'
    case 't' => '\t'
    case _ => c
  }

  /** The decoded value of a literal string body. A `\` at the very end has
      nothing to escape and is dropped. */
  function DecodePdf(s: string): (r: string)
    ensures |r| <= |s|
    decreases |s|
  {
    if s == [] then []
    else if s[0] == '\\' then
      if |s| == 1 then [] else [Unescape(s[1])] + DecodePdf(s[2..])
    else [s[0]] + DecodePdf(s[1..])
  }

  /** A body without a backslash decodes to itself. */
  lemma {:induction false} DecodePlain(s: string)
    requires forall i :: 0 <= i < |s| ==> s[i] != '\\'
    ensures DecodePdf(s) == s
    decreases |s|
  {
    if s != [] {
      DecodePlain(s[1..]);
    }
  }

  /** decode_pdf_string: walks the characters once, pushing each plain
      character and the meaning of each escape. */
  method DecodePdfString(s: string) returns (result: string)
    ensures result == DecodePdf(s)
  {
    result := [];
    var i := 0;
    while i < |s|
      invariant 0 <= i <= |s|
      invariant result + DecodePdf(s[i..]) == DecodePdf(s)
      decreases |s| - i
    {
      if s[i] == '\\' {
        if i + 1 < |s| {
          DecodeEscapeAt(s, i, result);
          result := result + [Unescape(s[i + 1])];
          i := i + 2;
        } else {
          assert DecodePdf(s[i..]) == [];
          i := i + 1;
        }
      } else {
        DecodePlainAt(s, i, result);
        result := result + [s[i]];
        i := i + 1;
      }
    }
    assert DecodePdf(s[i..]) == [];
  }

  /** One step of the decoder's loop at an escape, after `acc`. */
  lemma DecodeEscapeAt(s: string, i: nat, acc: string)
    requires i + 1 < |s| && s[i] == '\\'
    ensures acc + DecodePdf(s[i..]) == (acc + [Unescape(s[i + 1])]) + DecodePdf(s[i + 2..])
  {
    assert s[i..][2..] == s[i + 2..];
  }

  /** One step of the decoder's loop at a plain character, after `acc`. */
  lemma DecodePlainAt(s: string, i: nat, acc: string)
    requires i < |s| && s[i] != '\\'
    ensures acc + DecodePdf(s[i..]) == (acc + [s[i]]) + DecodePdf(s[i + 1..])
  {
    assert s[i..][1..] == s[i + 1..];
  }

  /** How a writer escapes one character inside `( … )` so that the reader
      above gives it back. */
  function EscapeChar(c: char): string {
    match c
    case '\\' => "\\\\"
    case '(' => "\\("
    case ')' => "\\)"
    case '\n' => "\\n"
    case '\r' => "\\r"
    case '\t' => "\\t"
    case _ => [c]
  }

  function EscapePdf(s: string): string
    decreases |s|
  {
    if s == [] then [] else EscapeChar(s[0]) + EscapePdf(s[1..])
  }

  lemma DecodeEscapedChar(c: char, rest: string)
    ensures DecodePdf(EscapeChar(c) + rest) == [c] + DecodePdf(rest)
  {
    var e := EscapeChar(c) + rest;
    if |EscapeChar(c)| == 2 {
      assert e[0] == '\\' && e[2..] == rest;
    } else {
      assert e[0] == c && e[1..] == rest;
    }
  }

  /** Decoding undoes escaping. */
  lemma {:induction false} DecodeEscapeRoundTrip(s: string)
    ensures DecodePdf(EscapePdf(s)) == s
    decreases |s|
  {
    if s != [] {
      DecodeEscapedChar(s[0], EscapePdf(s[1..]));
      DecodeEscapeRoundTrip(s[1..]);
    }
  }

  /** An escape `\c` stands for one character: the control character for
      `n`, `r` and `t`, and `c` itself for every other `c`. */
  lemma DecodeEscape(c: char, rest: string)
    ensures DecodePdf(['\\', c] + rest) == [Unescape(c)] + DecodePdf(rest)
    ensures c !in "nrt" ==> DecodePdf(['\\', c] + rest) == [c] + DecodePdf(rest)
  {
    assert (['\\', c] + rest)[2..] == rest;
  }

  /** A lone `\` after a complete escaped string is dropped. */
  lemma {:induction false} DecodeDropsTrailingBackslash(s: string)
    ensures DecodePdf(EscapePdf(s) + "\\") == s
    decreases |s|
  {
    if s == [] {
      assert EscapePdf(s) + "\\" == "\\";
    } else {
      assert EscapePdf(s) + "\\" == EscapeChar(s[0]) + (EscapePdf(s[1..]) + "\\");
      DecodeEscapedChar(s[0], EscapePdf(s[1..]) + "\\");
      DecodeDropsTrailingBackslash(s[1..]);
    }
  }

  // ---------------------------------------------------------------------
  // Hexadecimal strings: decode_hex_string
  // ---------------------------------------------------------------------

  function HexDigitValue(c: char): (r: Option<nat>)
    ensures r.Some? ==> r.value < 16
  {
    if '0' <= c <= '9' then Some(c as int - '0' as int)
    else if 'a' <= c <= 'f' then Some(c as int - 'a' as int + 10)
    else if 'A' <= c <= 'F' then Some(c as int - 'A' as int + 10)
    else None
  }

  function Pow16(k: nat): (r: nat)
    ensures r >= 1
  {
    if k == 0 then 1 else 16 * Pow16(k - 1)
  }

  /** The value of a run of hexadecimal digits, or None if one is not a
      digit or the run is empty. */
  function HexDigits(d: string): (r: Option<nat>)
    ensures r.Some? ==> r.value < Pow16(|d|)
    decreases |d|
  {
    if d == [] then None
    else
      var last := HexDigitValue(d[|d| - 1]);
      if last.None? then None
      else if |d| == 1 then last
      else match HexDigits(d[..|d| - 1])
        case None => None
        case Some(v) => Some(v * 16 + last.value)
  }

  /** `u16::from_str_radix(s, 16)` (and `u8::from_str_radix`) on the short
      slices used here: an optional leading `+`, then at least one digit.
      Every value fits the target width because the slices are at most
      four (two) characters long. */
  function ParseHex(s: string): (r: Option<nat>)
    ensures r.Some? ==> r.value < Pow16(|s|)
  {
    if s != [] && s[0] == '+' then
      if |s| == 1 then None
      else
        var r := HexDigits(s[1..]);
        assert Pow16(|s[1..]|) <= Pow16(|s|);
        r
    else HexDigits(s)
  }

  predicate IsScalar(code: nat) {
    code < 0xD800 || (0xE000 <= code < 0x110000)
  }

  /** One UTF-16 code unit written as hex: `char::from_u32` of its value,
      which fails for surrogates. */
  function UnitChars(g: string): (r: string)
    ensures |r| <= 1
  {
    match ParseHex(g)
    case Some(code) => if IsScalar(code) then [code as char] else []
    case None => []
  }

  /** The characters the UTF-16BE attempt collects from a hex string whose
      length is a multiple of four, one group of four at a time. */
  function Utf16Chars(h: string): string
    requires |h| % 4 == 0
    decreases |h|
  {
    if h == [] then [] else Utf16Chars(h[..|h| - 4]) + UnitChars(h[|h| - 4..])
  }

  lemma {:induction false} Utf16CharsAppend(a: string, b: string)
    requires |a| % 4 == 0 && |b| % 4 == 0
    ensures Utf16Chars(a + b) == Utf16Chars(a) + Utf16Chars(b)
    decreases |b|
  {
    if b != [] {
      assert (a + b)[..|a + b| - 4] == a + b[..|b| - 4];
      assert (a + b)[|a + b| - 4..] == b[|b| - 4..];
      Utf16CharsAppend(a, b[..|b| - 4]);
    } else {
      assert a + b == a;
    }
  }

  /** The bytes of the fallback: every pair of characters that parses as a
      `u8`, in order; pairs that do not parse are skipped. */
  function HexBytes(h: string): (r: seq<nat>)
    requires |h| % 2 == 0
    ensures forall i :: 0 <= i < |r| ==> r[i] < 256
    decreases |h|
  {
    if h == [] then []
    else
      var b := ParseHex(h[..2]);
      assert Pow16(2) == 256;
      (if b.Some? then [b.value] else []) + HexBytes(h[2..])
  }

  predicate IsCont(b: nat) {
    0x80 <= b < 0xC0
  }

  /** `String::from_utf8`: the characters of well-formed UTF-8 (no overlong
      forms, no surrogates, nothing above U+10FFFF), or None. */
  function Utf8Decode(b: seq<nat>): Option<string>
    decreases |b|
  {
    if b == [] then Some([])
    else
      var b0 := b[0];
      if b0 < 0x80 then
        Prepend(b0, Utf8Decode(b[1..]))
      else if 0xC2 <= b0 <= 0xDF && |b| >= 2 && IsCont(b[1]) then
        Prepend((b0 - 0xC0) * 64 + (b[1] - 0x80), Utf8Decode(b[2..]))
      else if 0xE0 <= b0 <= 0xEF && |b| >= 3 && IsCont(b[1]) && IsCont(b[2])
        && (b0 != 0xE0 || b[1] >= 0xA0) && (b0 != 0xED || b[1] < 0xA0) then
        Prepend((b0 - 0xE0) * 4096 + (b[1] - 0x80) * 64 + (b[2] - 0x80), Utf8Decode(b[3..]))
      else if 0xF0 <= b0 <= 0xF4 && |b| >= 4 && IsCont(b[1]) && IsCont(b[2]) && IsCont(b[3])
        && (b0 != 0xF0 || b[1] >= 0x90) && (b0 != 0xF4 || b[1] < 0x90) then
        Prepend((b0 - 0xF0) * 262144 + (b[1] - 0x80) * 4096 + (b[2] - 0x80) * 64 + (b[3] - 0x80),
                Utf8Decode(b[4..]))
      else None
  }

  function Prepend(code: nat, rest: Option<string>): Option<string>
    requires IsScalar(code)
  {
    match rest
    case None => None
    case Some(s) => Some([code as char] + s)
  }

  /** decode_hex_string. Spaces are removed first. When the length is a
      multiple of four, the groups of four are read as UTF-16 code units
      (a unit that is a surrogate or not hex is skipped); if that yields at
      least one character it is the result. Otherwise pairs are read as
      bytes and the result is their UTF-8 decoding, if well formed. The
      byte-pair fallback slices past the end on an odd length, so that
      input panics; input that is not ASCII is treated as panicking too. */
  function DecodeHex(hex: string): (r: Run<Option<string>>)
    ensures |RemoveSpaces(hex)| % 2 == 1 ==> r == Panics
  {
    var h := RemoveSpaces(hex);
    if !IsAscii(h) then Panics
    else if |h| % 4 == 0 && Utf16Chars(h) != [] then Returns(Some(Utf16Chars(h)))
    else if |h| % 2 == 1 then Panics
    else Returns(Utf8Decode(HexBytes(h)))
  }

  /** A run of ASCII groups of four with no spaces, at least one of
      which is a character, decodes as UTF-16. */
  lemma DecodeHexUtf16(hex: string)
    requires RemoveSpaces(hex) == hex && IsAscii(hex)
    requires |hex| % 4 == 0 && Utf16Chars(hex) != []
    ensures DecodeHex(hex) == Returns(Some(Utf16Chars(hex)))
  {
  }

  lemma GroupStep(i: nat, n: nat)
    requires i % 4 == 0 && n % 4 == 0 && i < n
    ensures i + 4 <= n && (i + 4) % 4 == 0
  {
  }

  lemma Utf16CharsStep(h: string, i: nat)
    requires i % 4 == 0 && i + 4 <= |h|
    ensures Utf16Chars(h[..i + 4]) == Utf16Chars(h[..i]) + UnitChars(h[i..i + 4])
  {
    var next := h[..i + 4];
    assert next[..|next| - 4] == h[..i];
    assert next[|next| - 4..] == h[i..i + 4];
  }

  /** The loop of decode_hex_string over the groups of four. */
  method CollectUtf16(h: string) returns (chars: string)
    requires |h| % 4 == 0
    ensures chars == Utf16Chars(h)
  {
    chars := [];
    var i := 0;
    while i < |h|
      invariant 0 <= i <= |h| && i % 4 == 0
      invariant chars == Utf16Chars(h[..i])
      decreases |h| - i
    {
      GroupStep(i, |h|);
      Utf16CharsStep(h, i);
      chars := chars + UnitChars(h[i..i + 4]);
      i := i + 4;
    }
    assert h[..i] == h;
  }

  /** decode_hex_string. */
  method DecodeHexString(hex: string) returns (r: Run<Option<string>>)
    ensures r == DecodeHex(hex)
  {
    var h := RemoveSpaces(hex);
    if !IsAscii(h) {
      return Panics;
    }
    if |h| % 4 == 0 {
      var chars := CollectUtf16(h);
      if chars != [] {
        return Returns(Some(chars));
      }
    }
    if |h| % 2 == 1 {
      return Panics;
    }
    r := Returns(Utf8Decode(HexBytes(h)));
  }

  // ---------------------------------------------------------------------
  // Text operators: extract_text_operator
  // ---------------------------------------------------------------------

  /** Appends a prefix to the value of a run, keeping a panic. */
  function Then(prefix: string, rest: Run<string>): Run<string> {
    match rest
    case Panics => Panics
    case Returns(t) => Returns(prefix + t)
  }

  lemma ThenThen(a: string, b: string, rest: Run<string>)
    ensures Then(a, Then(b, rest)) == Then(a + b, rest)
  {
    if rest.Returns? {
      assert a + (b + rest.value) == (a + b) + rest.value;
    }
  }

  /** Where the scan of a `( … )` body stops: at the first `)` or the end;
      a `\` makes it step over the next character (possibly past the end). */
  function SkipString(c: string, i: nat): (j: nat)
    requires i <= |c| + 1
    ensures i <= j <= |c| + 1
    ensures j <= |c| ==> j == |c| || c[j] == ')'
    decreases |c| + 2 - i
  {
    if i < |c| && c[i] != ')' then
      if c[i] == '\\' then SkipString(c, i + 2) else SkipString(c, i + 1)
    else i
  }

  /** Where the scan of a `< … >` body stops: at the first `>` or the end. */
  function SkipHex(c: string, i: nat): (j: nat)
    requires i <= |c|
    ensures i <= j <= |c|
    ensures j == |c| || c[j] == '>'
    ensures forall k :: i <= k < j ==> c[k] != '>'
    decreases |c| - i
  {
    if i < |c| && c[i] != '>' then SkipHex(c, i + 1) else i
  }

  /** One step of the `TJ` scan at position `i < |c|`: the text that
      position contributes and where the scan goes on (the position after
      the closing delimiter, or the next position). */
  function Piece(c: string, i: nat): (r: Run<(string, nat)>)
    requires i < |c|
    ensures r.Returns? ==> i < r.value.1 <= |c| + 2
  {
    if c[i] == '(' then
      var j := SkipString(c, i + 1);
      if j > |c| then Panics
      else Returns((if j > i + 1 then DecodePdf(c[i + 1..j]) else [], j + 1))
    else if c[i] == '<' then
      var j := SkipHex(c, i + 1);
      if j > i + 1 then
        match DecodeHex(c[i + 1..j])
        case Panics => Panics
        case Returns(d) => Returns((if d.Some? then d.value else [], j + 1))
      else Returns(([], j + 1))
    else Returns(([], i + 1))
  }

  /** The text the `TJ` scan collects from position `i` on: the decoded
      body of every `( … )` and every `< … >` that decodes, in order. */
  function ScanTJ(c: string, i: nat): Run<string>
    requires i <= |c| + 2
    decreases |c| + 2 - i
  {
    if i >= |c| then Returns([])
    else match Piece(c, i)
      case Panics => Panics
      case Returns(p) => Then(p.0, ScanTJ(c, p.1))
  }

  /** The body of the `TJ` loop at one position. */
  method ScanPiece(chars: string, i: nat) returns (r: Run<(string, nat)>)
    requires i < |chars|
    ensures r == Piece(chars, i)
  {
    if chars[i] == '(' {
      r := ScanStringPiece(chars, i);
    } else if chars[i] == '<' {
      r := ScanHexPiece(chars, i);
    } else {
      r := Returns(([], i + 1));
    }
  }

  /** A `( … )` element of a `TJ` array. */
  method ScanStringPiece(chars: string, i: nat) returns (r: Run<(string, nat)>)
    requires i < |chars| && chars[i] == '('
    ensures r == Piece(chars, i)
  {
    var piece: string := [];
    var start := i + 1;
    var next := SkipStringBody(chars, start);
    if next > |chars| {
      return Panics;
    }
    if next > start {
      piece := DecodePdfString(chars[start..next]);
    }
    r := Returns((piece, next + 1));
  }

  /** A `< … >` element of a `TJ` array. */
  method ScanHexPiece(chars: string, i: nat) returns (r: Run<(string, nat)>)
    requires i < |chars| && chars[i] == '<'
    ensures r == Piece(chars, i)
  {
    var piece: string := [];
    var start := i + 1;
    var next := SkipHexBody(chars, start);
    PieceHex(chars, i, next);
    if next > start {
      var decoded := DecodeHexString(chars[start..next]);
      if decoded.Panics? {
        return Panics;
      }
      if decoded.value.Some? {
        piece := decoded.value.value;
      }
    }
    r := Returns((piece, next + 1));
  }

  /** The piece a `< … >` element gives, once its end `j` is known. */
  lemma PieceHex(c: string, i: nat, j: nat)
    requires i < |c| && c[i] == '<' && j == SkipHex(c, i + 1)
    ensures Piece(c, i) == if j > i + 1 then
        match DecodeHex(c[i + 1..j])
        case Panics => Panics
        case Returns(d) => Returns((if d.Some? then d.value else [], j + 1))
      else Returns(([], j + 1))
  {
  }

  /** The inner loop over a `( … )` body. */
  method SkipStringBody(chars: string, start: nat) returns (i: nat)
    requires start <= |chars|
    ensures i == SkipString(chars, start)
  {
    i := start;
    while i < |chars| && chars[i] != ')'
      invariant start <= i <= |chars| + 1
      invariant SkipString(chars, i) == SkipString(chars, start)
      decreases |chars| + 2 - i
    {
      if chars[i] == '\\' {
        i := i + 1;
      }
      i := i + 1;
    }
  }

  /** The inner loop over a `< … >` body. */
  method SkipHexBody(chars: string, start: nat) returns (i: nat)
    requires start <= |chars|
    ensures i == SkipHex(chars, start)
  {
    i := start;
    while i < |chars| && chars[i] != '>'
      invariant start <= i <= |chars|
      invariant SkipHex(chars, i) == SkipHex(chars, start)
      decreases |chars| - i
    {
      i := i + 1;
    }
  }

  /** The `[ … ] TJ` loop of extract_text_operator. */
  method ScanTextArray(chars: string) returns (r: Run<string>)
    ensures r == ScanTJ(chars, 0)
  {
    var result: string := [];
    var i := 0;
    if ScanTJ(chars, 0).Returns? {
      assert [] + ScanTJ(chars, 0).value == ScanTJ(chars, 0).value;
    }
    while i < |chars|
      invariant 0 <= i <= |chars| + 2
      invariant ScanTJ(chars, 0) == Then(result, ScanTJ(chars, i))
      decreases |chars| + 2 - i
    {
      var step := ScanPiece(chars, i);
      if step.Panics? {
        return Panics;
      }
      ThenThen(result, step.value.0, ScanTJ(chars, step.value.1));
      result := result + step.value.0;
      i := step.value.1;
    }
    assert result + [] == result;
    r := Returns(result);
  }

  predicate EndsTj(l: string) { EndsWith(l, " Tj") || EndsWith(l, ")Tj") }
  predicate EndsHexTj(l: string) { EndsWith(l, " Tj") || EndsWith(l, ">Tj") }
  predicate EndsTJ(l: string) { EndsWith(l, " TJ") || EndsWith(l, "]TJ") }

  /** extract_text_operator on one line of a content stream. A `Tj` line
      with a literal string gives the decoded text between its first `(`
      and its last `)`; one with a hex string the decoding of the text
      between its first `<` and its last `>`; a `TJ` line the concatenation
      of its pieces, unless that is empty. When the closing delimiter comes
      before the opening one the slice is reversed and the code panics. */
  function ExtractOp(line: string): Run<Option<string>> {
    var l := Trim(line);
    if EndsTj(l) && Find(l, '(').Some? && RFind(l, ')').Some? then
      var start := Find(l, '(').value;
      var end := RFind(l, ')').value;
      if start + 1 > end then Panics else Returns(Some(DecodePdf(l[start + 1..end])))
    else if EndsHexTj(l) && Find(l, '<').Some? && RFind(l, '>').Some? then
      var start := Find(l, '<').value;
      var end := RFind(l, '>').value;
      if start + 1 > end then Panics else DecodeHex(l[start + 1..end])
    else if EndsTJ(l) then
      match ScanTJ(l, 0)
      case Panics => Panics
      case Returns(t) => if t != [] then Returns(Some(t)) else Returns(None)
    else Returns(None)
  }

  /** The layout of a `(body) Tj` line. */
  lemma TjLineParts(body: string)
    ensures var l := "(" + body + ") Tj";
      && |l| == |body| + 5 && l[0] == '(' && l[|l| - 4] == ')'
      && (forall j :: |l| - 4 < j < |l| ==> l[j] != ')')
      && l[|l| - 3..] == " Tj"
      && l[1..|l| - 4] == body
      && !IsWhitespace(l[|l| - 1])
  {
  }

  /** Where the extractor looks in a `(body) Tj` line: the line is already
      trimmed, ends in ` Tj`, and its first `(` and last `)` enclose the
      body. */
  lemma TjLineFound(body: string)
    ensures var l := "(" + body + ") Tj";
      && Trim(l) == l && EndsTj(l)
      && Find(l, '(') == Some(0) && RFind(l, ')') == Some(|l| - 4)
      && l[1..|l| - 4] == body
  {
    var l := "(" + body + ") Tj";
    TjLineParts(body);
    TrimNoop(l);
    assert Find(l, '(') == Some(0);
    RFindLast(l, ')', |l| - 4);
  }

  /** A line `(body) Tj` whose body is an escaped string gives that string
      back. */
  lemma TjRoundTrip(s: string)
    ensures ExtractOp("(" + EscapePdf(s) + ") Tj") == Returns(Some(s))
  {
    TjLineFound(EscapePdf(s));
    DecodeEscapeRoundTrip(s);
  }

  /** The layout of a `<body> Tj` line. */
  lemma HexTjLineParts(body: string)
    ensures var l := "<" + body + "> Tj";
      && |l| == |body| + 5 && l[0] == '<' && l[|l| - 4] == '>'
      && (forall j :: |l| - 4 < j < |l| ==> l[j] != '>' && l[j] != '(')
      && l[|l| - 3..] == " Tj"
      && l[1..|l| - 4] == body
      && (forall j :: 1 <= j < |l| - 4 ==> l[j] == body[j - 1])
      && !IsWhitespace(l[|l| - 1])
  {
  }

  /** Where the extractor looks in a `<body> Tj` line whose body has no
      `(`, `<` or `>`: the line is already trimmed, ends in ` Tj`, has no
      `(`, and its first `<` and last `>` enclose the body. */
  lemma HexTjLineFound(body: string)
    requires forall j :: 0 <= j < |body| ==> body[j] != '(' && body[j] != '<' && body[j] != '>'
    ensures var l := "<" + body + "> Tj";
      && Trim(l) == l && EndsTj(l) && EndsHexTj(l)
      && Find(l, '(').None? && Find(l, '<') == Some(0) && RFind(l, '>') == Some(|l| - 4)
      && l[1..|l| - 4] == body
  {
    var l := "<" + body + "> Tj";
    HexTjLineParts(body);
    TrimNoop(l);
    assert Find(l, '(').None? by {
      forall j | 0 <= j < |l| ensures l[j] != '(' {
        if 1 <= j < |l| - 4 { assert l[j] == body[j - 1]; }
      }
    }
    assert Find(l, '<') == Some(0);
    RFindLast(l, '>', |l| - 4);
  }

  /** A `<body> Tj` line with no `(`, `<` or `>` in its body is read as a
      hex string: the extractor decodes exactly the body. */
  lemma HexTjLine(body: string)
    requires forall j :: 0 <= j < |body| ==> body[j] != '(' && body[j] != '<' && body[j] != '>'
    ensures ExtractOp("<" + body + "> Tj") == DecodeHex(body)
  {
    HexTjLineFound(body);
  }

  /** Only an empty string escapes to nothing. */
  lemma EscapeEmpty(a: string)
    ensures EscapePdf(a) == [] <==> a == []
  {
    if a != [] {
      assert |EscapeChar(a[0])| >= 1;
    }
  }

  /** What EscapeChar writes: either a two-character escape, or the
      character itself when it is neither `)` nor `\`. */
  lemma EscapeCharShape(x: char)
    ensures || (|EscapeChar(x)| == 2 && EscapeChar(x)[0] == '\\')
            || (EscapeChar(x) == [x] && x != ')' && x != '\\')
  {
  }

  /** The scan of a `( … )` body steps over one escaped character. */
  lemma SkipOneEscaped(c: string, i: nat, x: char, next: nat)
    requires next == i + |EscapeChar(x)| <= |c| && c[i..next] == EscapeChar(x)
    ensures SkipString(c, i) == SkipString(c, next)
  {
    EscapeCharShape(x);
    assert c[i] == c[i..next][0];
  }

  /** The scan of a `( … )` body written by EscapePdf stops at the `)`
      after it: every `)` and `\` inside is escaped. */
  lemma {:induction false} SkipEscaped(c: string, i: nat, a: string, end: nat)
    requires end == i + |EscapePdf(a)| < |c|
    requires c[i..end] == EscapePdf(a) && c[end] == ')'
    ensures SkipString(c, i) == end
    decreases |a|
  {
    if a != [] {
      var e := EscapeChar(a[0]);
      var mid := i + |e|;
      assert EscapePdf(a) == e + EscapePdf(a[1..]);
      assert c[i..mid] == e by {
        assert c[i..mid] == c[i..end][..|e|];
      }
      assert c[mid..end] == EscapePdf(a[1..]) by {
        assert c[mid..end] == c[i..end][|e|..];
      }
      SkipOneEscaped(c, i, a[0], mid);
      SkipEscaped(c, mid, a[1..], end);
    }
  }

  /** A `( … )` element whose scan ends inside the line is one piece: its
      decoded body, and the position after the `)`. */
  lemma PieceString(c: string, i: nat, j: nat)
    requires i < |c| && c[i] == '(' && j == SkipString(c, i + 1) && j <= |c|
    ensures Piece(c, i) == Returns((if j > i + 1 then DecodePdf(c[i + 1..j]) else [], j + 1))
  {
  }

  /** A `( … )` element whose body EscapePdf wrote is one piece of the
      `TJ` scan: the unescaped string, and the position after the `)`. */
  lemma PieceEscaped(c: string, i: nat, a: string, next: nat)
    requires next == i + |EscapePdf(a)| + 2 <= |c|
    requires c[i..next] == "(" + EscapePdf(a) + ")"
    ensures Piece(c, i) == Returns((a, next))
  {
    var e := EscapePdf(a);
    var j := next - 1;
    assert c[i] == c[i..next][0];
    assert c[j] == c[i..next][|e| + 1];
    assert c[i + 1..j] == e by {
      forall k | 0 <= k < |e| ensures c[i + 1 + k] == e[k] {
        assert c[i + 1 + k] == c[i..next][k + 1];
      }
    }
    SkipEscaped(c, i + 1, a, j);
    PieceString(c, i, j);
    DecodeEscapeRoundTrip(a);
    EscapeEmpty(a);
  }

  /** Such an element contributes the unescaped string to the `TJ` text. */
  lemma ScanEscaped(c: string, i: nat, a: string, next: nat)
    requires next == i + |EscapePdf(a)| + 2 <= |c|
    requires c[i..next] == "(" + EscapePdf(a) + ")"
    ensures ScanTJ(c, i) == Then(a, ScanTJ(c, next))
  {
    PieceEscaped(c, i, a, next);
  }

  /** A character other than `(` and `<` contributes nothing to the `TJ`
      text. */
  lemma ScanPlain(c: string, i: nat)
    requires i < |c| && c[i] != '(' && c[i] != '<'
    ensures ScanTJ(c, i) == ScanTJ(c, i + 1)
  {
    PiecePlain(c, i);
    if ScanTJ(c, i + 1).Returns? {
      assert [] + ScanTJ(c, i + 1).value == ScanTJ(c, i + 1).value;
    }
  }

  /** Any other character is a piece without text. */
  lemma PiecePlain(c: string, i: nat)
    requires i < |c| && c[i] != '(' && c[i] != '<'
    ensures Piece(c, i) == Returns(([], i + 1))
  {
  }

  lemma {:induction false} ScanSkips(c: string, i: nat, j: nat)
    requires i <= j <= |c|
    requires forall k :: i <= k < j ==> c[k] != '(' && c[k] != '<'
    ensures ScanTJ(c, i) == ScanTJ(c, j)
    decreases j - i
  {
    if i < j {
      ScanPlain(c, i);
      ScanSkips(c, i + 1, j);
    }
  }

  /** The layout of a `[(a) -250 (b)] TJ` line. */
  lemma TJLineParts(ea: string, eb: string)
    ensures var l := "[(" + ea + ") -250 (" + eb + ")] TJ";
      var p, q := |ea|, |eb|;
      && |l| == p + q + 15 && l[..1] == "["
      && l[1..p + 3] == "(" + ea + ")"
      && l[p + 3..p + 9] == " -250 "
      && l[p + 9..p + q + 11] == "(" + eb + ")"
      && l[p + q + 11..] == "] TJ"
  {
  }

  /** A stretch of text without `(` or `<` contributes nothing to the
      `TJ` text. */
  lemma ScanSkipsGap(c: string, i: nat, gap: string, next: nat)
    requires next == i + |gap| <= |c| && c[i..next] == gap
    requires '(' !in gap && '<' !in gap
    ensures ScanTJ(c, i) == ScanTJ(c, next)
  {
    forall k | i <= k < i + |gap| ensures c[k] != '(' && c[k] != '<' {
      assert c[k] == gap[k - i];
    }
    ScanSkips(c, i, i + |gap|);
  }

  /** The scan of a line laid out as `[(a) -250 (b)] TJ`, with both
      strings escaped, collects `a` then `b`. */
  lemma TJLineScan(l: string, a: string, b: string, p: nat, q: nat)
    requires p == |EscapePdf(a)| && q == |EscapePdf(b)| && |l| == p + q + 15
    requires l[..1] == "["
    requires l[1..p + 3] == "(" + EscapePdf(a) + ")"
    requires l[p + 3..p + 9] == " -250 "
    requires l[p + 9..p + q + 11] == "(" + EscapePdf(b) + ")"
    requires l[p + q + 11..] == "] TJ"
    ensures ScanTJ(l, 0) == Returns(a + b)
  {
    ScanFirst(l, a, p);
    ScanSecond(l, b, p + 9, q);
  }

  /** The front of such a line, up to the second string, yields `a`. */
  lemma ScanFirst(l: string, a: string, p: nat)
    requires p == |EscapePdf(a)| && p + 9 <= |l|
    requires l[..1] == "["
    requires l[1..p + 3] == "(" + EscapePdf(a) + ")"
    requires l[p + 3..p + 9] == " -250 "
    ensures ScanTJ(l, 0) == Then(a, ScanTJ(l, p + 9))
  {
    ScanSkipsGap(l, 0, "[", 1);
    ScanEscaped(l, 1, a, p + 3);
    ScanSkipsGap(l, p + 3, " -250 ", p + 9);
  }

  /** The rest of such a line, from the second string on, yields `b`. */
  lemma ScanSecond(l: string, b: string, k: nat, q: nat)
    requires q == |EscapePdf(b)| && |l| == k + q + 6
    requires l[k..k + q + 2] == "(" + EscapePdf(b) + ")"
    requires l[k + q + 2..] == "] TJ"
    ensures ScanTJ(l, k) == Returns(b)
  {
    ScanTail(l, k + q + 2);
    ScanEscapedLast(l, k, b, k + q + 2);
  }

  /** An escaped element followed by nothing that adds text yields the
      unescaped string. */
  lemma ScanEscapedLast(c: string, i: nat, a: string, next: nat)
    requires next == i + |EscapePdf(a)| + 2 <= |c|
    requires c[i..next] == "(" + EscapePdf(a) + ")"
    requires ScanTJ(c, next) == Returns([])
    ensures ScanTJ(c, i) == Returns(a)
  {
    PieceEscaped(c, i, a, next);
    assert a + [] == a;
  }

  /** The closing `] TJ` adds nothing. */
  lemma ScanTail(l: string, k: nat)
    requires k + 4 == |l| && l[k..] == "] TJ"
    ensures ScanTJ(l, k) == Returns([])
  {
    ScanSkipsGap(l, k, "] TJ", |l|);
  }

  /** A line from `[` to `] TJ` reaches the `TJ` branch of the extractor. */
  lemma TJLineDispatch(l: string)
    requires |l| >= 4 && l[0] == '[' && l[|l| - 4..] == "] TJ"
    ensures ExtractOp(l) == match ScanTJ(l, 0)
      case Panics => Panics
      case Returns(t) => if t != [] then Returns(Some(t)) else Returns(None)
  {
    assert l[|l| - 3..] == l[|l| - 4..][1..];
    assert l[|l| - 1] == 'J';
    TrimNoop(l);
    assert !EndsTj(l) && !EndsHexTj(l) && EndsTJ(l);
  }

  /** A `TJ` line with two escaped strings and a kerning number between
      them gives the two strings joined, or nothing when both are empty. */
  lemma TJRoundTrip(a: string, b: string)
    ensures ExtractOp("[(" + EscapePdf(a) + ") -250 (" + EscapePdf(b) + ")] TJ")
         == Returns(if a + b == [] then None else Some(a + b))
  {
    var l := "[(" + EscapePdf(a) + ") -250 (" + EscapePdf(b) + ")] TJ";
    TJLineParts(EscapePdf(a), EscapePdf(b));
    TJLineScan(l, a, b, |EscapePdf(a)|, |EscapePdf(b)|);
    TJLineDispatch(l);
  }

  /** extract_text_operator. */
  method ExtractTextOperator(line: string) returns (r: Run<Option<string>>)
    ensures r == ExtractOp(line)
  {
    var l := Trim(line);
    if EndsTj(l) {
      var start := Find(l, '(');
      if start.Some? {
        var end := RFind(l, ')');
        if end.Some? {
          if start.value + 1 > end.value {
            return Panics;
          }
          var text := DecodePdfString(l[start.value + 1..end.value]);
          return Returns(Some(text));
        }
      }
    }
    if EndsHexTj(l) {
      var start := Find(l, '<');
      if start.Some? {
        var end := RFind(l, '>');
        if end.Some? {
          if start.value + 1 > end.value {
            return Panics;
          }
          r := DecodeHexString(l[start.value + 1..end.value]);
          return;
        }
      }
    }
    if EndsTJ(l) {
      var result := ScanTextArray(l);
      if result.Panics? {
        return Panics;
      }
      if result.value != [] {
        return Returns(Some(result.value));
      }
    }
    r := Returns(None);
  }

  // ---------------------------------------------------------------------
  // Content streams: extract_text_from_content
  // ---------------------------------------------------------------------

  /** The variables of the scan: the text so far, whether a `BT` is open,
      and the text of the open block. */
  datatype ScanState = ScanState(text: string, inText: bool, current: string)

  /** The text one line adds inside a block (nothing when the line is not
      a text operator). */
  function OpText(line: string): Run<string> {
    match ExtractOp(line)
    case Panics => Panics
    case Returns(o) => Returns(if o.Some? then o.value else [])
  }

  /** One iteration of the scan over a line; `op` gives the text a line
      adds inside a block (the scan itself uses `OpText`). */
  function Step(st: ScanState, line: string, op: string -> Run<string>): Run<ScanState> {
    if IsBT(line) then Returns(st.(inText := true))
    else if IsET(line) then
      if st.current != [] then
        Returns(ScanState(if st.text != [] then st.text + "\n" + st.current else st.current, false, []))
      else
        Returns(st.(inText := false))
    else if st.inText then
      match op(line)
      case Panics => Panics
      case Returns(t) => Returns(st.(current := st.current + t))
    else Returns(st)
  }

  function ScanLines(lines: seq<string>, op: string -> Run<string>): Run<ScanState>
    decreases |lines|
  {
    if lines == [] then Returns(ScanState([], false, []))
    else match ScanLines(lines[..|lines| - 1], op)
      case Panics => Panics
      case Returns(st) => Step(st, lines[|lines| - 1], op)
  }

  /** Every line trimmed, as the scan sees it. */
  function TrimLines(lines: seq<string>): (r: seq<string>)
    ensures |r| == |lines| && forall i :: 0 <= i < |r| ==> r[i] == Trim(lines[i])
  {
    seq(|lines|, i requires 0 <= i < |lines| => Trim(lines[i]))
  }

  /** What extract_text_from_content returns for a decoded content stream. */
  function ExtractText(content: string): Run<string> {
    match ScanLines(TrimLines(Lines(content)), OpText)
    case Panics => Panics
    case Returns(st) => Returns(st.text)
  }

  /** extract_text_from_content, on the stream already decoded to text. */
  method ExtractTextFromContent(content: string) returns (r: Run<string>)
    ensures r == ExtractText(content)
  {
    var lines := Lines(content);
    ghost var trimmed := TrimLines(lines);
    var st := ScanState([], false, []);
    var k := 0;
    while k < |lines|
      invariant 0 <= k <= |lines|
      invariant ScanLines(trimmed[..k], OpText) == Returns(st)
      decreases |lines| - k
    {
      ScanLinesStep(trimmed, k, OpText);
      var next := ScanLine(st, Trim(lines[k]));
      if next.Panics? {
        PanicPersists(trimmed, k + 1, OpText);
        return Panics;
      }
      st := next.value;
      k := k + 1;
    }
    assert trimmed[..k] == trimmed;
    r := Returns(st.text);
  }

  /** The body of the scan's loop, for one trimmed line. */
  method ScanLine(st: ScanState, line: string) returns (r: Run<ScanState>)
    ensures r == Step(st, line, OpText)
  {
    var text, inText, current := st.text, st.inText, st.current;
    if line == "BT" {
      inText := true;
    } else if line == "ET" {
      inText := false;
      if current != [] {
        if text != [] {
          text := text + "\n";
        } else {
          assert text + current == current;
        }
        text := text + current;
        current := [];
      }
    } else if inText {
      var extracted := ExtractTextOperator(line);
      if extracted.Panics? {
        return Panics;
      }
      assert OpText(line) == Returns(if extracted.value.Some? then extracted.value.value else []);
      if extracted.value.Some? {
        current := current + extracted.value.value;
      } else {
        assert current + [] == current;
      }
    }
    r := Returns(ScanState(text, inText, current));
  }

  lemma ScanLinesStep(lines: seq<string>, k: nat, op: string -> Run<string>)
    requires k < |lines| && ScanLines(lines[..k], op).Returns?
    ensures ScanLines(lines[..k + 1], op) == Step(ScanLines(lines[..k], op).value, lines[k], op)
  {
    assert lines[..k + 1][..k] == lines[..k];
  }

  /** Once the scan panics on a prefix, it panics on the whole. */
  lemma {:induction false} PanicPersists(lines: seq<string>, k: nat, op: string -> Run<string>)
    requires k <= |lines| && ScanLines(lines[..k], op).Panics?
    ensures ScanLines(lines, op).Panics?
    decreases |lines| - k
  {
    if k < |lines| {
      assert lines[..k + 1][..k] == lines[..k];
      PanicPersists(lines, k + 1, op);
    } else {
      assert lines[..k] == lines;
    }
  }

  // The same result, stated block by block.

  predicate IsBT(line: string) { line == "BT" }
  predicate IsET(line: string) { line == "ET" }

  predicate HasBT(seg: seq<string>) {
    exists i :: 0 <= i < |seg| && IsBT(seg[i])
  }

  /** The lines cut at every `ET` line (which belongs to no piece): every
      piece but the last was closed by an `ET`; the last is what follows
      the final `ET`. */
  function SplitAtET(lines: seq<string>): (r: seq<seq<string>>)
    ensures |r| >= 1
    decreases |lines|
  {
    if lines == [] then [[]]
    else
      var segs := SplitAtET(lines[..|lines| - 1]);
      var l := lines[|lines| - 1];
      if IsET(l) then segs + [[]]
      else segs[..|segs| - 1] + [segs[|segs| - 1] + [l]]
  }

  /** The text of one piece: the operator text of its lines after its
      first `BT`; lines before that `BT`, and further `BT` lines, add
      nothing. */
  function BlockText(seg: seq<string>, op: string -> Run<string>): Run<string>
    decreases |seg|
  {
    if seg == [] then Returns([])
    else
      var init := seg[..|seg| - 1];
      var l := seg[|seg| - 1];
      if IsBT(l) || !HasBT(init) then BlockText(init, op)
      else match BlockText(init, op)
        case Panics => Panics
        case Returns(t) => Then(t, op(l))
  }

  function BlockTexts(segs: seq<seq<string>>, op: string -> Run<string>): (r: Run<seq<string>>)
    ensures r.Returns? ==> |r.value| == |segs|
    decreases |segs|
  {
    if segs == [] then Returns([])
    else match BlockTexts(segs[..|segs| - 1], op)
      case Panics => Panics
      case Returns(ts) =>
        match BlockText(segs[|segs| - 1], op)
        case Panics => Panics
        case Returns(t) => Returns(ts + [t])
  }

  function NonEmpty(ts: seq<string>): (r: seq<string>)
    ensures forall i :: 0 <= i < |r| ==> r[i] != []
    decreases |ts|
  {
    if ts == [] then []
    else if ts[|ts| - 1] == [] then NonEmpty(ts[..|ts| - 1])
    else NonEmpty(ts[..|ts| - 1]) + [ts[|ts| - 1]]
  }

  /** The block-by-block reading of a stream: the texts of the blocks that
      an `ET` closed, empty ones left out, joined by one newline; the text
      of a block that no `ET` closes is discarded (but a panic while
      reading it still panics). */
  function ExtractTextByBlocks(lines: seq<string>): Run<string> {
    var segs := SplitAtET(lines);
    match BlockTexts(segs, OpText)
    case Panics => Panics
    case Returns(ts) => Returns(Join(NonEmpty(ts[..|ts| - 1]), "\n"))
  }

  lemma {:induction false} JoinEmpty(ts: seq<string>, sep: string)
    requires forall i :: 0 <= i < |ts| ==> ts[i] != []
    ensures Join(ts, sep) == [] <==> ts == []
    decreases |ts|
  {
    if |ts| > 1 {
      JoinEmpty(ts[..|ts| - 1], sep);
    }
  }

  /** The relation between the scan's state after some lines and the
      block-by-block reading of the same lines. */
  predicate Blockwise(lines: seq<string>, op: string -> Run<string>) {
    && (ScanLines(lines, op).Panics? <==> BlockTexts(SplitAtET(lines), op).Panics?)
    && (ScanLines(lines, op).Returns? ==>
         var st := ScanLines(lines, op).value;
         var segs := SplitAtET(lines);
         var ts := BlockTexts(segs, op).value;
         && st.text == Join(NonEmpty(ts[..|ts| - 1]), "\n")
         && st.inText == HasBT(segs[|segs| - 1])
         && st.current == ts[|ts| - 1])
  }

  lemma BlockTextsSplit(segs: seq<seq<string>>, op: string -> Run<string>)
    requires |segs| >= 1
    ensures BlockTexts(segs, op).Returns? <==>
      BlockTexts(segs[..|segs| - 1], op).Returns? && BlockText(segs[|segs| - 1], op).Returns?
    ensures BlockTexts(segs, op).Returns? ==>
      BlockTexts(segs, op).value == BlockTexts(segs[..|segs| - 1], op).value + [BlockText(segs[|segs| - 1], op).value]
  {
  }

  /** The pieces after one more `ET` line: a new, empty last piece. */
  lemma SplitAtETAfterET(init: seq<string>, l: string)
    requires IsET(l)
    ensures SplitAtET(init + [l]) == SplitAtET(init) + [[]]
  {
    assert (init + [l])[..|init|] == init;
  }

  /** The joined text of the non-empty block texts, one block at a time. */
  lemma JoinNonEmptyLast(ts: seq<string>)
    requires |ts| >= 1
    ensures var j := Join(NonEmpty(ts[..|ts| - 1]), "\n");
      var t := ts[|ts| - 1];
      Join(NonEmpty(ts), "\n") ==
        if t == [] then j else if j == [] then t else j + "\n" + t
  {
    JoinEmpty(NonEmpty(ts[..|ts| - 1]), "\n");
  }

  lemma BlockwiseAfterET(init: seq<string>, l: string, op: string -> Run<string>)
    requires Blockwise(init, op) && IsET(l)
    ensures Blockwise(init + [l], op)
  {
    var lines := init + [l];
    TakeSnoc(init, l);
    var segs := SplitAtET(init);
    var segs' := segs + [[]];
    SplitAtETAfterET(init, l);
    TakeSnoc(segs, []);
    BlockTextsSplit(segs', op);
    if ScanLines(init, op).Panics? {
      assert ScanLines(lines, op).Panics? && BlockTexts(SplitAtET(lines), op).Panics?;
    } else {
      var ts := BlockTexts(segs, op).value;
      JoinNonEmptyLast(ts);
      var ts' := BlockTexts(segs', op).value;
      assert ts' == ts + [[]];
      TakeSnoc(ts, []);
      var st' := ScanLines(lines, op).value;
      assert st' == ScanState(Join(NonEmpty(ts), "\n"), false, []);
    }
  }

  lemma HasBTAppend(seg: seq<string>, l: string)
    ensures HasBT(seg + [l]) <==> HasBT(seg) || IsBT(l)
  {
    var seg' := seg + [l];
    if HasBT(seg') {
      var i :| 0 <= i < |seg'| && IsBT(seg'[i]);
      if i < |seg| { assert seg[i] == seg'[i]; }
    }
    if HasBT(seg) {
      var i :| 0 <= i < |seg| && IsBT(seg[i]);
      assert seg'[i] == seg[i];
    }
    if IsBT(l) {
      assert IsBT(seg'[|seg|]);
    }
  }

  /** The pieces after one more line that is not `ET`: the line joins the
      last piece. */
  lemma SplitAtETOther(init: seq<string>, l: string)
    requires !IsET(l)
    ensures var segs := SplitAtET(init);
      SplitAtET(init + [l]) == segs[..|segs| - 1] + [segs[|segs| - 1] + [l]]
  {
    assert (init + [l])[..|init|] == init;
  }

  lemma ScanLinesSnoc(init: seq<string>, l: string, op: string -> Run<string>)
    ensures ScanLines(init + [l], op) ==
      match ScanLines(init, op)
      case Panics => Panics
      case Returns(st) => Step(st, l, op)
  {
    TakeSnoc(init, l);
  }

  lemma BlockTextSnoc(seg: seq<string>, l: string, op: string -> Run<string>)
    ensures BlockText(seg + [l], op) ==
      if IsBT(l) || !HasBT(seg) then BlockText(seg, op)
      else match BlockText(seg, op)
        case Panics => Panics
        case Returns(t) => Then(t, op(l))
  {
    TakeSnoc(seg, l);
  }

  lemma BlockwiseAfterOther(init: seq<string>, l: string, op: string -> Run<string>)
    requires Blockwise(init, op) && !IsET(l)
    ensures Blockwise(init + [l], op)
  {
    if ScanLines(init, op).Returns? && !IsBT(l) && ScanLines(init, op).value.inText {
      BlockwiseAfterRead(init, l, op);
    } else {
      var lines := init + [l];
      TakeSnoc(init, l);
      var segs := SplitAtET(init);
      var m := |segs|;
      var last := segs[m - 1];
      var segs' := segs[..m - 1] + [last + [l]];
      SplitAtETOther(init, l);
      TakeSnoc(segs[..m - 1], last + [l]);
      TakeSnoc(last, l);
      BlockTextsSplit(segs, op);
      BlockTextsSplit(segs', op);
      HasBTAppend(last, l);
      ScanLinesSnoc(init, l, op);
      BlockTextSnoc(last, l, op);
      if ScanLines(init, op).Panics? {
        assert ScanLines(lines, op).Panics? && BlockTexts(SplitAtET(lines), op).Panics?;
      } else {
        assert BlockText(last + [l], op) == BlockText(last, op);
        assert BlockTexts(segs', op) == BlockTexts(segs, op);
        assert ScanLines(lines, op).value.text == ScanLines(init, op).value.text;
        assert ScanLines(lines, op).value.current == ScanLines(init, op).value.current;
      }
    }
  }

  /** The case of a line read by `op` inside an open block. */
  lemma BlockwiseAfterRead(init: seq<string>, l: string, op: string -> Run<string>)
    requires Blockwise(init, op) && !IsET(l) && !IsBT(l)
    requires ScanLines(init, op).Returns? && ScanLines(init, op).value.inText
    ensures Blockwise(init + [l], op)
  {
    var lines := init + [l];
    TakeSnoc(init, l);
    var segs := SplitAtET(init);
    var m := |segs|;
    var last := segs[m - 1];
    var segs' := segs[..m - 1] + [last + [l]];
    SplitAtETOther(init, l);
    TakeSnoc(segs[..m - 1], last + [l]);
    TakeSnoc(last, l);
    BlockTextsSplit(segs, op);
    BlockTextsSplit(segs', op);
    HasBTAppend(last, l);
    var ts := BlockTexts(segs, op).value;
    assert BlockText(last + [l], op) == Then(ts[m - 1], op(l));
    if op(l).Panics? {
      assert ScanLines(lines, op).Panics? && BlockTexts(SplitAtET(lines), op).Panics?;
    } else {
      var ts' := BlockTexts(segs', op).value;
      assert ts' == ts[..m - 1] + [ts[m - 1] + op(l).value];
      TakeSnoc(ts[..m - 1], ts[m - 1] + op(l).value);
      assert ScanLines(lines, op).value.current == ts[m - 1] + op(l).value;
    }
  }

  /** For any per-line reading `op`, the scan and the block-by-block
      reading agree after every prefix of the lines. */
  lemma {:induction false} ScanIsBlockwise(lines: seq<string>, op: string -> Run<string>)
    ensures Blockwise(lines, op)
    decreases |lines|
  {
    if lines == [] {
      var empty: seq<seq<string>> := [[]];
      assert empty[..0] == [];
    } else {
      var init := lines[..|lines| - 1];
      var l := lines[|lines| - 1];
      ScanIsBlockwise(init, op);
      assert lines == init + [l];
      if IsET(l) {
        BlockwiseAfterET(init, l, op);
      } else {
        BlockwiseAfterOther(init, l, op);
      }
    }
  }

  /** A line that does not end in `j` or `J` is no text operator. */
  lemma OpTextOtherEnd(line: string)
    requires line != [] && line[|line| - 1] != 'j' && line[|line| - 1] != 'J'
    requires Trim(line) == line
    ensures OpText(line) == Returns([])
  {
    assert !EndsWith(line, " Tj") && !EndsWith(line, ")Tj") && !EndsWith(line, ">Tj");
    assert !EndsWith(line, " TJ") && !EndsWith(line, "]TJ");
  }

  /** Lines that are `BT`, `ET` or add no text leave the scan with no text. */
  lemma {:induction false} ScanSilent(lines: seq<string>, op: string -> Run<string>)
    requires forall i :: 0 <= i < |lines| ==> IsBT(lines[i]) || IsET(lines[i]) || op(lines[i]) == Returns([])
    ensures ScanLines(lines, op).Returns?
    ensures ScanLines(lines, op).value.text == [] && ScanLines(lines, op).value.current == []
    decreases |lines|
  {
    if lines != [] {
      ScanSilent(lines[..|lines| - 1], op);
      var st := ScanLines(lines[..|lines| - 1], op).value;
      var l := lines[|lines| - 1];
      if !IsBT(l) && !IsET(l) && st.inText {
        assert st.current + [] == [];
      }
    }
  }

  /** extract_text_from_content keeps exactly the text of the blocks closed
      by `ET`, joined by single newlines, and drops empty and unclosed
      blocks. */
  lemma ExtractTextIsBlockwise(content: string)
    ensures ExtractText(content) == ExtractTextByBlocks(TrimLines(Lines(content)))
  {
    ScanIsBlockwise(TrimLines(Lines(content)), OpText);
    assert Blockwise(TrimLines(Lines(content)), OpText);
  }
}
