/** The serialiser of src/pdf.rs: SimplePdf's content buffer, `render`
    (the header, the numbered objects, the cross-reference table and the
    trailer of sections 7.5.2 to 7.5.5 of ISO 32000-1) and `generate_pdf`. */
module PdfDocument {
  import opened Wrappers
  import opened Strings
  import opened Seqs
  import PdfText
  import PdfWriter

  // ---------------------------------------------------------------------
  // Bytes of text: `str::as_bytes`
  // ---------------------------------------------------------------------

  /** `char::encode_utf8`: one to four bytes. */
  function Utf8Char(c: char): (r: seq<byte>)
    ensures 1 <= |r| <= 4
    ensures IsAsciiChar(c) ==> r == [c as int]
  {
    var n := c as int;
    if n < 0x80 then [n]
    else if n < 0x800 then [0xC0 + n / 64, 0x80 + n % 64]
    else if n < 0x10000 then [0xE0 + n / 4096, 0x80 + n / 64 % 64, 0x80 + n % 64]
    else [0xF0 + n / 0x40000, 0x80 + n / 4096 % 64, 0x80 + n / 64 % 64, 0x80 + n % 64]
  }

  /** The UTF-8 bytes of a string. */
  function Utf8(s: string): seq<byte> {
    FlatMap(s, Utf8Char)
  }

  lemma Utf8Append(a: string, b: string)
    ensures Utf8(a + b) == Utf8(a) + Utf8(b)
  {
    FlatMapAppend(a, b, Utf8Char);
  }

  /** An ASCII string is its own bytes: one per character. */
  lemma {:induction false} AsciiUtf8(s: string)
    requires IsAscii(s)
    ensures |Utf8(s)| == |s|
    ensures forall i :: 0 <= i < |s| ==> Utf8(s)[i] == s[i] as int
    decreases |s|
  {
    if s != [] {
      var init := s[..|s| - 1];
      AsciiUtf8(init);
      assert IsAsciiChar(s[|s| - 1]);
      assert Utf8(s) == Utf8(init) + [s[|s| - 1] as int];
    }
  }

  lemma Utf8NonEmpty(s: string)
    requires s != []
    ensures |Utf8(s)| >= |s| >= 1
  {
    Utf8Longer(s);
  }

  lemma {:induction false} Utf8Longer(s: string)
    ensures |Utf8(s)| >= |s|
    decreases |s|
  {
    if s != [] {
      Utf8Longer(s[..|s| - 1]);
    }
  }

  // ---------------------------------------------------------------------
  // The objects of the document
  // ---------------------------------------------------------------------

  /** `%PDF-1.4`, then a comment of four bytes above 127 marking the file
      as binary (section 7.5.2 of ISO 32000-1). */
  function Header(): seq<byte> {
    Utf8("%PDF-1.4\n%") + [0xE2, 0xE3, 0xCF, 0xD3] + Utf8("\n")
  }

  /** The first line of indirect object `num` (generation 0). */
  function ObjHead(num: nat): string {
    Dec(num) + " 0 obj\n"
  }

  /** Object 1: the catalog. */
  const CatalogObj: string := ObjHead(1) + CatalogBody
  const CatalogBody: string := "<< /Type /Catalog /Pages 2 0 R >>\nendobj\n"

  /** Page `i` (from 0) is object `4 + 2i`. */
  function PageRef(i: nat): string {
    Dec(4 + 2 * i) + " 0 R"
  }

  function PageRefs(n: nat): string {
    Join(seq(n, i requires 0 <= i < n => PageRef(i)), " ")
  }

  /** Object 2: the page tree, listing every page object. */
  function PagesObj(n: nat): string {
    ObjHead(2) + PagesBody(n)
  }

  function PagesBody(n: nat): string {
    "<< /Type /Pages /Kids [ " + PageRefs(n) + " ] /Count " + Dec(n) + " >>\nendobj\n"
  }

  /** Object 3: the CJK font. */
  const FontObj: string := ObjHead(3) + FontBody
  const FontBody: string :=
    "<< /Type /Font /Subtype /Type0 /BaseFont /STSong-Light "
    + "/Encoding /UniGB-UTF16-H "
    + "/DescendantFonts [ << /Type /Font /Subtype /CIDFontType0 "
    + "/BaseFont /STSong-Light /CIDSystemInfo << /Registry (Adobe) "
    + "/Ordering (GB1) /Supplement 5 >> >> ] >>\nendobj\n"

  /** Page `i`: object `4 + 2i`, whose contents are object `5 + 2i`. */
  function PageObj(i: nat): string {
    ObjHead(4 + 2 * i) + PageBody(i)
  }

  function PageBody(i: nat): string {
    "<< /Type /Page /Parent 2 0 R /MediaBox [0 0 595 842] "
    + "/Contents " + Dec(5 + 2 * i) + " 0 R /Resources << /Font << /F1 3 0 R >> >> >>\nendobj\n"
  }

  /** The content stream of page `i`: object `5 + 2i`, whose `/Length` is
      the stream's length in bytes. */
  function ContentObj(i: nat, stream: string): string {
    ObjHead(5 + 2 * i) + ContentBody(stream)
  }

  function ContentBody(stream: string): string {
    "<< /Length " + Dec(|Utf8(stream)|) + " >>\nstream\n" + stream + "endstream\nendobj\n"
  }

  /** The page and content objects of every page, in page order. */
  function PageObjs(streams: seq<string>): (r: seq<string>)
    ensures |r| == 2 * |streams|
  {
    Pairs(streams, PageObj, ContentObj)
  }

  /** The objects in the order render writes them: object `k + 1` is at
      index `k`. */
  function Objects(streams: seq<string>): (r: seq<string>)
    ensures |r| == 3 + 2 * |streams|
  {
    [CatalogObj, PagesObj(|streams|), FontObj] + PageObjs(streams)
  }

  /** The bytes of objects written one after the other. */
  function Body(objs: seq<string>): seq<byte> {
    FlatMap(objs, Utf8)
  }

  /** Where each object starts: the header and the objects before it. */
  function Offsets(objs: seq<string>): (r: seq<nat>)
    ensures |r| == |objs|
    decreases |objs|
  {
    if objs == [] then []
    else Offsets(objs[..|objs| - 1]) + [|Header()| + |Body(objs[..|objs| - 1])|]
  }

  function XrefHead(count: nat): string {
    "xref\n0 " + Dec(count + 1) + "\n"
  }

  /** The entry of object 0, head of the list of free objects. */
  const FreeEntry: string := "0000000000 65535 f \n"

  /** The entry of an object in use at byte offset `o`. */
  function XrefEntry(o: nat): string {
    Dec10(o) + " 00000 n \n"
  }

  function EntryBytes(o: nat): seq<byte> {
    Utf8(XrefEntry(o))
  }

  function Trailer(count: nat, xref: nat): string {
    "trailer\n<< /Size " + Dec(count + 1) + " /Root 1 0 R >>\nstartxref\n" + Dec(xref) + "\n%%EOF\n"
  }

  /** The cross-reference table: its header, the free entry of object 0
      and one entry per object. */
  function XrefTable(offsets: seq<nat>): seq<byte> {
    Utf8(XrefHead(|offsets|)) + Utf8(FreeEntry) + FlatMap(offsets, EntryBytes)
  }

  /** Where the cross-reference table starts. */
  function XrefOffset(streams: seq<string>): nat {
    |Header()| + |Body(Objects(streams))|
  }

  /** The bytes render produces for these page content streams. */
  function Document(streams: seq<string>): seq<byte> {
    var objs := Objects(streams);
    var offs := Offsets(objs);
    Header() + Body(objs) + XrefTable(offs) + Utf8(Trailer(|offs|, XrefOffset(streams)))
  }

  /** Every rendered document starts with the bytes `%PDF`. */
  lemma DocumentMagic(streams: seq<string>)
    ensures |Document(streams)| >= 4 && Document(streams)[..4] == [0x25, 0x50, 0x44, 0x46]
  {
    var head := "%PDF-1.4\n%";
    assert IsAscii(head) by {
      forall i | 0 <= i < |head| ensures IsAsciiChar(head[i]) {}
    }
    AsciiUtf8(head);
    var u := Utf8(head);
    assert u[..4] == [0x25, 0x50, 0x44, 0x46];
    var h1 := u + [0xE2, 0xE3, 0xCF, 0xD3];
    TakeAppend(u, [0xE2, 0xE3, 0xCF, 0xD3], 4);
    TakeAppend(h1, Utf8("\n"), 4);
    assert Header()[..4] == u[..4];
    var objs := Objects(streams);
    var offs := Offsets(objs);
    var d1 := Header() + Body(objs);
    var d2 := d1 + XrefTable(offs);
    TakeAppend(Header(), Body(objs), 4);
    TakeAppend(d1, XrefTable(offs), 4);
    TakeAppend(d2, Utf8(Trailer(|offs|, XrefOffset(streams))), 4);
  }

  // ---------------------------------------------------------------------
  // render
  // ---------------------------------------------------------------------

  lemma ObjectsAt(streams: seq<string>, i: nat)
    requires i < |streams|
    ensures Objects(streams)[3 + 2 * i] == PageObj(i)
    ensures Objects(streams)[4 + 2 * i] == ContentObj(i, streams[i])
  {
    PairsAfterThree(CatalogObj, PagesObj(|streams|), FontObj, streams, PageObj, ContentObj, i);
  }

  /** The document's bytes so far: the header and the objects `objs`, each
      recorded at its offset. */
  predicate Emitted(objs: seq<string>, output: seq<byte>, offsets: seq<nat>) {
    output == Header() + Body(objs) && offsets == Offsets(objs)
  }

  /** Writing one more object at the end of the output. */
  lemma EmitOne(objs: seq<string>, x: string, output: seq<byte>, offsets: seq<nat>)
    requires Emitted(objs, output, offsets)
    ensures Emitted(objs + [x], output + Utf8(x), offsets + [|output|])
  {
    FlatMapSnoc(objs, x, Utf8);
    TakeSnoc(objs, x);
  }

  /** The SimplePdf document: text accumulated by add_content. */
  class SimplePdf {
    var content: string

    /** SimplePdf::new. */
    constructor ()
      ensures content == []
    {
      content := [];
    }

    /** add_content: a blank line between pieces. */
    method AddContent(text: string)
      modifies this
      ensures content == Added(old(content), text)
    {
      if content != [] {
        content := content + "\n\n";
      }
      content := content + text;
    }

    /** render: the page content streams of prepare_pages, laid out by
        WriteDocument. It always succeeds. */
    method Render() returns (r: Result<seq<byte>, string>)
      ensures r == Ok(Document(PdfWriter.PreparedPages(content)))
    {
      var pageContents := PdfWriter.PreparePages(content);
      var output := WriteDocument(pageContents);
      r := Ok(output);
    }
  }

  /** The body of render once the pages are prepared: the header and the
      objects, then the cross-reference table and the trailer. */
  method WriteDocument(pageContents: seq<string>) returns (output: seq<byte>)
    ensures output == Document(pageContents)
  {
    var objOffsets;
    output, objOffsets := WriteObjects(pageContents);
    var xrefOffset := |output|;
    assert xrefOffset == XrefOffset(pageContents);
    ghost var body := output;
    output := output + Utf8(XrefHead(|objOffsets|)) + Utf8(FreeEntry);
    output := WriteEntries(output, objOffsets, EntryBytes);
    output := output + Utf8(Trailer(|objOffsets|, xrefOffset));
    Regroup(body, Utf8(XrefHead(|objOffsets|)), Utf8(FreeEntry), FlatMap(objOffsets, EntryBytes));
  }

  /** The header, the catalog, the page tree, the font, and a page and a
      content object per page, with each object's byte offset recorded as
      it is written. */
  method WriteObjects(pageContents: seq<string>) returns (output: seq<byte>, objOffsets: seq<nat>)
    ensures output == Header() + Body(Objects(pageContents))
    ensures objOffsets == Offsets(Objects(pageContents))
  {
    output := Utf8("%PDF-1.4\n%") + [0xE2, 0xE3, 0xCF, 0xD3] + Utf8("\n");
    objOffsets := [];
    var numPages := |pageContents|;
    ghost var done: seq<string> := [];
    EmitOne(done, CatalogObj, output, objOffsets);
    done, objOffsets, output := done + [CatalogObj], objOffsets + [|output|], output + Utf8(CatalogObj);
    EmitOne(done, PagesObj(numPages), output, objOffsets);
    done, objOffsets, output := done + [PagesObj(numPages)], objOffsets + [|output|], output + Utf8(PagesObj(numPages));
    EmitOne(done, FontObj, output, objOffsets);
    done, objOffsets, output := done + [FontObj], objOffsets + [|output|], output + Utf8(FontObj);
    ghost var fixed := [CatalogObj, PagesObj(numPages), FontObj];
    assert done == fixed + PageObjs(pageContents[..0]);
    var i := 0;
    while i < numPages
      invariant 0 <= i <= numPages
      invariant Emitted(done, output, objOffsets)
      invariant done == fixed + PageObjs(pageContents[..i])
      decreases numPages - i
    {
      EmitOne(done, PageObj(i), output, objOffsets);
      done, objOffsets, output := done + [PageObj(i)], objOffsets + [|output|], output + Utf8(PageObj(i));
      EmitOne(done, ContentObj(i, pageContents[i]), output, objOffsets);
      objOffsets, output := objOffsets + [|output|], output + Utf8(ContentObj(i, pageContents[i]));
      PairsPrefix(pageContents, PageObj, ContentObj, i);
      SnocTwo(fixed, PageObjs(pageContents[..i]), PageObj(i), ContentObj(i, pageContents[i]));
      done := done + [ContentObj(i, pageContents[i])];
      i := i + 1;
    }
    assert pageContents[..i] == pageContents;
  }

  /** The cross-reference entries, one per offset in order, written after
      `prefix` by `entry` (EntryBytes in render). */
  method WriteEntries<T, U>(prefix: seq<U>, offsets: seq<T>, entry: T -> seq<U>) returns (output: seq<U>)
    ensures output == prefix + FlatMap(offsets, entry)
  {
    output := prefix;
    assert offsets[..0] == [];
    var j := 0;
    while j < |offsets|
      invariant 0 <= j <= |offsets|
      invariant output == prefix + FlatMap(offsets[..j], entry)
      decreases |offsets| - j
    {
      FlatMapPrefix(offsets, j, entry);
      output := output + entry(offsets[j]);
      j := j + 1;
    }
    assert offsets[..j] == offsets;
  }

  /** The content after add_content appends `text` to `content`. */
  function Added(content: string, text: string): string {
    content + (if content != [] then "\n\n" else "") + text
  }

  /** The content after add_content has been called with each page in
      order, starting from an empty buffer. */
  function Accumulated(pages: seq<string>): string
    decreases |pages|
  {
    if pages == [] then [] else Added(Accumulated(pages[..|pages| - 1]), pages[|pages| - 1])
  }

  /** generate_pdf: every page's text added to one buffer, which is then
      rendered. */
  method GeneratePdf(pages: seq<string>) returns (r: Result<seq<byte>, string>)
    ensures r == Ok(Document(PdfWriter.PreparedPages(Accumulated(pages))))
  {
    var pdf := new SimplePdf();
    assert pages[..0] == [];
    for i := 0 to |pages|
      invariant pdf.content == Accumulated(pages[..i])
    {
      assert pages[..i + 1][..i] == pages[..i];
      pdf.AddContent(pages[i]);
    }
    assert pages[..|pages|] == pages;
    r := pdf.Render();
  }

  // ---------------------------------------------------------------------
  // What the accumulated text is
  // ---------------------------------------------------------------------

  /** The pages from the first non-empty one on. */
  function DropLeadingEmpty(pages: seq<string>): (r: seq<string>)
    ensures r == [] || r[0] != []
    decreases |pages|
  {
    if pages == [] then []
    else if pages[0] == [] then DropLeadingEmpty(pages[1..])
    else pages
  }

  lemma {:induction false} DropLeadingEmptySnoc(pages: seq<string>, t: string)
    ensures DropLeadingEmpty(pages + [t])
      == if DropLeadingEmpty(pages) == [] then (if t == [] then [] else [t])
         else DropLeadingEmpty(pages) + [t]
    decreases |pages|
  {
    if pages == [] {
      assert pages + [t] == [t];
      assert [t][1..] == [];
    } else {
      assert (pages + [t])[0] == pages[0];
      assert (pages + [t])[1..] == pages[1..] + [t];
      if pages[0] == [] {
        DropLeadingEmptySnoc(pages[1..], t);
      }
    }
  }

  lemma {:induction false} JoinNonEmpty(ss: seq<string>, sep: string)
    requires ss != [] && ss[0] != []
    ensures Join(ss, sep) != []
    decreases |ss|
  {
    if |ss| > 1 {
      JoinNonEmpty(ss[..|ss| - 1], sep);
    }
  }

  /** add_content leaves out empty pieces while the buffer is still empty,
      and after that puts a blank line before every piece, empty or not:
      the buffer is the pages from the first non-empty one on, joined by
      blank lines. */
  lemma {:induction false} AccumulatedIsJoin(pages: seq<string>)
    ensures Accumulated(pages) == Join(DropLeadingEmpty(pages), "\n\n")
    decreases |pages|
  {
    if pages != [] {
      var init := pages[..|pages| - 1];
      var t := pages[|pages| - 1];
      assert pages == init + [t];
      AccumulatedIsJoin(init);
      DropLeadingEmptySnoc(init, t);
      var d := DropLeadingEmpty(init);
      if d != [] {
        JoinNonEmpty(d, "\n\n");
        assert (d + [t])[..|d|] == d;
      }
    }
  }

  // ---------------------------------------------------------------------
  // The layout render promises
  // ---------------------------------------------------------------------

  /** Each recorded offset is the length of the header and of the objects
      written before that object. */
  lemma {:induction false} OffsetsAt(objs: seq<string>, k: nat)
    requires k < |objs|
    ensures Offsets(objs)[k] == |Header()| + |Body(objs[..k])|
    decreases |objs|
  {
    var init := objs[..|objs| - 1];
    if k < |objs| - 1 {
      OffsetsAt(init, k);
      assert init[..k] == objs[..k];
    }
  }

  /** The cross-reference entry of object `k + 1` points at that object's
      bytes in the document. */
  lemma ObjectAtOffset(streams: seq<string>, k: nat)
    requires k < |Objects(streams)|
    ensures OccursAt(Document(streams), Offsets(Objects(streams))[k], Utf8(Objects(streams)[k]))
  {
    var objs := Objects(streams);
    var offs := Offsets(objs);
    OffsetsAt(objs, k);
    FlatMapSplit(objs, k, Utf8);
    var b1, u, b2 := Body(objs[..k]), Utf8(objs[k]), Body(objs[k + 1..]);
    var r1, r2 := XrefTable(offs), Utf8(Trailer(|offs|, XrefOffset(streams)));
    SliceMiddle(Document(streams), Header(), b1, u, b2, r1, r2, offs[k]);
  }

  /** A non-empty object ends after it starts. */
  lemma OffsetsIncrease(objs: seq<string>, k: nat)
    requires k + 1 < |objs| && objs[k] != []
    ensures Offsets(objs)[k] < Offsets(objs)[k + 1]
  {
    OffsetsAt(objs, k);
    OffsetsAt(objs, k + 1);
    FlatMapPrefix(objs, k, Utf8);
    Utf8NonEmpty(objs[k]);
  }

  /** An object that begins with its `obj` line is not empty. */
  lemma HeadedNonEmpty(obj: string, num: nat)
    requires StartsWith(obj, ObjHead(num))
    ensures obj != []
  {
    assert |ObjHead(num)| >= |" 0 obj\n"|;
  }

  /** Every object render writes begins with its `obj` line. */
  lemma ObjectNonEmpty(streams: seq<string>, k: nat)
    requires k < |Objects(streams)|
    ensures Objects(streams)[k] != []
  {
    if k < 3 {
      FixedNonEmpty(streams);
    } else {
      var i := (k - 3) / 2;
      PageObjectsNonEmpty(streams, i);
      assert k == 3 + 2 * i || k == 4 + 2 * i;
    }
  }

  lemma FixedNonEmpty(streams: seq<string>)
    ensures Objects(streams)[0] != [] && Objects(streams)[1] != [] && Objects(streams)[2] != []
  {
    FixedNumbered(streams);
    HeadedNonEmpty(Objects(streams)[0], 1);
    HeadedNonEmpty(Objects(streams)[1], 2);
    HeadedNonEmpty(Objects(streams)[2], 3);
  }

  lemma PageObjectsNonEmpty(streams: seq<string>, i: nat)
    requires i < |streams|
    ensures Objects(streams)[3 + 2 * i] != [] && Objects(streams)[4 + 2 * i] != []
  {
    PageNumbered(streams, i);
    HeadedNonEmpty(Objects(streams)[3 + 2 * i], 4 + 2 * i);
    HeadedNonEmpty(Objects(streams)[4 + 2 * i], 5 + 2 * i);
  }

  /** The offsets of the cross-reference table are strictly increasing. */
  lemma DocumentOffsetsIncrease(streams: seq<string>, k: nat)
    requires k + 1 < |Objects(streams)|
    ensures Offsets(Objects(streams))[k] < Offsets(Objects(streams))[k + 1]
  {
    ObjectNonEmpty(streams, k);
    OffsetsIncrease(Objects(streams), k);
  }

  /** The objects render writes first are numbered 1 to 3: the bytes their
      entries point at begin with `1 0 obj`, `2 0 obj` and `3 0 obj`. */
  lemma FixedNumbered(streams: seq<string>)
    ensures StartsWith(Objects(streams)[0], ObjHead(1))
    ensures StartsWith(Objects(streams)[1], ObjHead(2))
    ensures StartsWith(Objects(streams)[2], ObjHead(3))
  {
    StartsWithAppend(ObjHead(1), CatalogBody);
    StartsWithAppend(ObjHead(2), PagesBody(|streams|));
    StartsWithAppend(ObjHead(3), FontBody);
  }

  /** Page `i` is object `4 + 2i` and its content stream object `5 + 2i`,
      at positions `3 + 2i` and `4 + 2i` of the written order, so every
      cross-reference entry `k` points at an object numbered `k + 1`. */
  lemma PageNumbered(streams: seq<string>, i: nat)
    requires i < |streams|
    ensures StartsWith(Objects(streams)[3 + 2 * i], ObjHead(4 + 2 * i))
    ensures StartsWith(Objects(streams)[4 + 2 * i], ObjHead(5 + 2 * i))
  {
    ObjectsAt(streams, i);
    StartsWithAppend(ObjHead(4 + 2 * i), PageBody(i));
    StartsWithAppend(ObjHead(5 + 2 * i), ContentBody(streams[i]));
  }

  /** The offset render writes after `startxref` is where the
      cross-reference table begins, and the table has an entry for each of
      the `3 + 2n` objects (the trailer's `/Size` adds object 0). */
  lemma XrefFound(streams: seq<string>)
    ensures |Offsets(Objects(streams))| == 3 + 2 * |streams|
    ensures OccursAt(Document(streams), XrefOffset(streams), XrefTable(Offsets(Objects(streams))))
  {
    var objs := Objects(streams);
    var offs := Offsets(objs);
    SliceAfter(Document(streams), Header() + Body(objs), XrefTable(offs),
      Utf8(Trailer(|offs|, XrefOffset(streams))), XrefOffset(streams));
  }
}
