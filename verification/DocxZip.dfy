/** The container of a saved document: the writer of stored ZIP archives, and the search for
    the document part. */
module DocxZip {
  import opened Basics
  import opened Spans
  import opened DocxText
  import opened DocxRoundTrip
  import opened DocxCode
  import opened ZipFormat

  const TYPES_NAME: Bytes := "[Content_Types].xml"
  const RELS_NAME: Bytes := "_rels/.rels"

  // ----- the whole file -----

  /** A saved document: two fixed parts and the text. */
  function DocxParts(types: Bytes, rels: Bytes, xml: Bytes): (ps: seq<Part>) {
    [Part(TYPES_NAME, types), Part(RELS_NAME, rels), Part(DOC_NAME, xml)]
  }

  function DocxFile(types: Bytes, rels: Bytes, xml: Bytes): (z: Bytes) { Archive(DocxParts(types, rels, xml)) }

  lemma DocumentFirst(types: Bytes, rels: Bytes, xml: Bytes)
    ensures FirstDocument(DocxParts(types, rels, xml)) == Some(xml)
  {
    var ps := DocxParts(types, rels, xml);
    assert TYPES_NAME[0] == '[' && RELS_NAME[0] == '_' && DOC_NAME[0] == 'w';
    assert ps[1..][0] == ps[1] && ps[1..][1..][0] == ps[2];
    assert FirstDocument(ps[1..][1..]) == Some(xml);
    assert FirstDocument(ps[1..]) == Some(xml);
  }

  /** The document part is found, both by the word processor's search and by a reader of
      archives, who also finds the other two. */
  lemma FindInDocx(types: Bytes, rels: Bytes, xml: Bytes)
    requires |types| < LIMIT32 && |rels| < LIMIT32 && |xml| < LIMIT32
    ensures FindXml(DocxFile(types, rels, xml)) == Some(xml)
    ensures |DocxFile(types, rels, xml)| < LIMIT32 ==>
      ReadZip(DocxFile(types, rels, xml)) == Some([Part("[Content_Types].xml", types), Part("_rels/.rels", rels),
                                                   Part("word/document.xml", xml)])
  {
    hide FindXml, ReadZip, Archive, FirstDocument;
    DocumentFirst(types, rels, xml);
    FindInArchive(DocxParts(types, rels, xml));
    if |DocxFile(types, rels, xml)| < LIMIT32 { ArchiveReads(DocxParts(types, rels, xml)); }
  }

  datatype Opening = NotFound | Read(outcome: Outcome)

  function OpenDocx(z: Bytes): (r: Opening) {
    match FindXml(z)
    case Some(xml) => Read(Parse(xml, START))
    case None => NotFound
  }

  /** The law of the file format: opening a saved document gives the text and
      one final newline, with one span per run. */
  lemma SavedDocumentOpens(types: Bytes, rels: Bytes, text: Bytes, spans: seq<TextSpan>)
    requires |types| < LIMIT32 && |rels| < LIMIT32 && |DocumentXml(text, spans)| < LIMIT32
    ensures OpenDocx(DocxFile(types, rels, DocumentXml(text, spans))) ==
            Read(if AngleEnds(text, spans) then OutOfRange else Opened(text + "\n", LineSpans(text, spans, 0)))
  {
    hide DocumentXml, Parse, DocxFile, AngleEnds, LineSpans, FindXml, ReadZip;
    FindInDocx(types, rels, DocumentXml(text, spans));
    SaveThenOpen(text, spans);
  }

  // ----- the code -----

  class ZipWriter {
    const buffer: array<Byte>
    var offset: nat
    const central: array<Byte>
    var cdOffset: nat
    var fileCount: nat

    /** The files added so far. */
    ghost var parts: seq<Part>

    ghost predicate Roomy()
      reads this
    {
      buffer != central && offset <= buffer.Length && cdOffset <= central.Length == 8192
    }

    /** The output holds the files one after the other, and the directory lists them. */
    ghost predicate Valid()
      reads this, buffer, central
    {
      && Roomy() && buffer[..offset] == Locals(parts) && central[..cdOffset] == Directory(parts, 0)
      && fileCount == |parts|
    }

    constructor (buffer: array<Byte>)
      ensures Valid() && this.buffer == buffer && fresh(central) && parts == []
    {
      this.buffer := buffer;
      offset, cdOffset, fileCount, parts := 0, 0, 0, [];
      central := new Byte[8192](_ => 0 as char);
    }

    /** Appends to the output; the caller leaves room, as the slice copy demands. */
    method Emit(x: Bytes)
      requires Roomy() && offset + |x| <= buffer.Length
      modifies this`offset, buffer
      ensures Roomy() && offset == old(offset) + |x| && buffer[..offset] == old(buffer[..offset]) + x
    {
      Blit(buffer, offset, x);
      offset := offset + |x|;
    }

    method EmitCentral(x: Bytes)
      requires Roomy() && cdOffset + |x| <= central.Length
      modifies this`cdOffset, central
      ensures Roomy() && cdOffset == old(cdOffset) + |x| && central[..cdOffset] == old(central[..cdOffset]) + x
    {
      Blit(central, cdOffset, x);
      cdOffset := cdOffset + |x|;
    }

    /** Adds a file behind the others. */
    method AddFile(name: Bytes, data: Bytes)
      requires Valid() && offset + 30 + |name| + |data| <= buffer.Length && cdOffset + 46 + |name| <= 8192
      modifies this`offset, this`cdOffset, this`fileCount, this`parts, buffer, central
      ensures Valid() && parts == old(parts) + [Part(name, data)]
      ensures offset == old(offset) + 30 + |name| + |data| && cdOffset == old(cdOffset) + 46 + |name|
    {
      hide LocalHeader, CentralRecord, Locals, Directory;
      var at := offset;
      ghost var p := Part(name, data);
      LocalsMore(parts, p);
      DirectoryMore(parts, p, 0);
      Emit(LocalHeader(|name|, |data|));
      Emit(name);
      Emit(data);
      Assoc(old(buffer[..offset]), LocalHeader(|name|, |data|), name);
      Assoc(old(buffer[..offset]), LocalHeader(|name|, |data|) + name, data);
      EmitCentral(CentralRecord(name, |data|, at));
      fileCount := fileCount + 1;
      parts := parts + [p];
    }

    /** Ends the archive: the output is the archive of the files added. */
    method Finish() returns (size: nat)
      requires Valid() && offset + cdOffset + 22 <= buffer.Length
      modifies this`offset, buffer
      ensures size == old(offset + cdOffset) + 22 <= buffer.Length && buffer[..size] == Archive(parts)
    {
      hide EndRecord, Locals, Directory;
      var cdStart := offset;
      var cd := central[..cdOffset];
      Emit(cd);
      Emit(EndRecord(fileCount, cdOffset, cdStart));
      size := offset;
    }
  }

  method Blit(a: array<Byte>, at: nat, x: Bytes)
    requires at + |x| <= a.Length
    modifies a
    ensures a[..at + |x|] == old(a[..at]) + x
  {
    for i := 0 to |x|
      invariant a[..at + i] == old(a[..at]) + x[..i]
    {
      a[at + i] := x[i];
    }
    assert x[..|x|] == x;
  }

  lemma FileLength(types: Bytes, rels: Bytes, xml: Bytes)
    ensures |TYPES_NAME| == 19 && |RELS_NAME| == 11 && |DOC_NAME| == 17
    ensures |DocxFile(types, rels, xml)| == 49 + |types| + (41 + |rels|) + (47 + |xml|) + 185 + 22
  {
    hide LocalHeader, CentralRecord, EndRecord;
    var ps := DocxParts(types, rels, xml);
    assert ps[1..][1..] == [ps[2]] && ps[1..][1..][1..] == [];
    assert |Locals(ps)| == 49 + |types| + |Locals(ps[1..])|;
    assert |Locals(ps[1..])| == 41 + |rels| + |Locals(ps[1..][1..])|;
    assert |Locals(ps[1..][1..])| == 47 + |xml|;
    assert |Directory(ps, 0)| == 65 + |Directory(ps[1..], 49 + |types|)|;
    var at := 49 + |types| + (41 + |rels|);
    assert |Directory(ps[1..], 49 + |types|)| == 57 + |Directory(ps[1..][1..], at)|;
    assert |Directory(ps[1..][1..], at)| == 63;
  }

  /** Saves a document; a build that checks for overflow stops at a run whose size is too
      large to be doubled. */
  method GenerateDocx(text: Bytes, spans: seq<TextSpan>, types: Bytes, rels: Bytes, out: array<Byte>, checked: bool)
    returns (ok: bool, size: nat)
    requires |DocxFile(types, rels, DocumentXml(text, spans))| <= out.Length
    modifies out
    ensures ok <==> !(checked && LargeLines(text, spans, 0))
    ensures ok ==> size <= out.Length && out[..size] == DocxFile(types, rels, DocumentXml(text, spans))
  {
    hide DocumentXml, DocxFile, LargeLines;
    size := 0;
    var xml;
    ok, xml := GenerateXml(text, spans, checked);
    if !ok { return; }
    size := WriteParts(types, rels, xml, out);
  }

  method WriteParts(types: Bytes, rels: Bytes, xml: Bytes, out: array<Byte>) returns (size: nat)
    requires |DocxFile(types, rels, xml)| <= out.Length
    modifies out
    ensures size <= out.Length && out[..size] == DocxFile(types, rels, xml)
  {
    hide Locals, Directory, Archive;
    var zip := new ZipWriter(out);
    FileLength(types, rels, xml);
    NoParts();
    zip.AddFile(TYPES_NAME, types);
    zip.AddFile(RELS_NAME, rels);
    zip.AddFile(DOC_NAME, xml);
    assert zip.parts == DocxParts(types, rels, xml);
    size := zip.Finish();
  }

  lemma NoParts()
    ensures Locals([]) == [] && Directory([], 0) == []
  {}

  method FindXmlInZip(zip: Bytes) returns (r: Option<Bytes>)
    ensures r == FindXml(zip)
  {
    hide FromLe;
    var i := 0;
    while i + 30 <= |zip|
      invariant 0 <= i && FindXml(zip) == if i <= |zip| then FindXml(zip[i..]) else None
    {
      ghost var z := zip[i..];
      assert z[..4] == zip[i..i + 4];
      if zip[i..i + 4] == LOCAL_SIG {
        assert z[18..22] == zip[i + 18..i + 22] && z[26..28] == zip[i + 26..i + 28] && z[28..30] == zip[i + 28..i + 30];
        var size := FromLe(zip[i + 18..i + 22]);
        var nameLen := FromLe(zip[i + 26..i + 28]);
        var extra := FromLe(zip[i + 28..i + 30]);
        var start := i + 30 + nameLen + extra;
        if i + 30 + nameLen <= |zip| {
          assert z[30..30 + nameLen] == zip[i + 30..i + 30 + nameLen];
          if zip[i + 30..i + 30 + nameLen] == DOC_NAME {
            if start + size <= |zip| {
              assert z[start - i..start - i + size] == zip[start..start + size];
              return Some(zip[start..start + size]);
            }
          }
        }
        if start + size <= |zip| { assert z[start + size - i..] == zip[start + size..]; }
        i := start + size;
      } else {
        assert z[1..] == zip[i + 1..];
        i := i + 1;
      }
    }
    r := None;
  }

  method ParseDocx(zip: Bytes) returns (r: Opening)
    ensures r == OpenDocx(zip)
  {
    hide FindXml, Parse;
    var xml := FindXmlInZip(zip);
    if xml.None? { return NotFound; }
    var o := ParseXml(xml.value);
    r := Read(o);
  }
}
