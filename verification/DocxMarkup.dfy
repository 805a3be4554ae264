/** The markup of saved documents and of others: what is written is properly nested and has text only
    where text belongs, and tags of other writers are read for what they mean. */
module DocxMarkup {
  import opened Basics
  import opened Spans
  import opened DocxText
  import opened DocxRoundTrip

  // ----- nesting -----

  datatype Element = Document | Body | Paragraph | Run | Properties | Text | Bold | Italic | Size

  function NameOf(e: Element): (n: Bytes) {
    match e
    case Document => "w:document"
    case Body => "w:body"
    case Paragraph => "w:p"
    case Run => "w:r"
    case Properties => "w:rPr"
    case Text => "w:t"
    case Bold => "w:b"
    case Italic => "w:i"
    case Size => "w:sz"
  }

  /** A tag names an element if it is the name, or the name and attributes. */
  predicate Names(tag: Bytes, e: Element) { tag == NameOf(e) || StartsWith(tag, NameOf(e) + " ") }

  /** Which elements the format has, and where: a document has a body of paragraphs of runs, and a run
      has properties and text. */
  predicate MayHold(outer: seq<Element>, e: Element) {
    if outer == [] then e.Document?
    else match outer[|outer| - 1]
      case Document => e.Body?
      case Body => e.Paragraph?
      case Paragraph => e.Run?
      case Run => e.Properties? || e.Text?
      case Properties => e.Bold? || e.Italic? || e.Size?
      case _ => false
  }

  /** The elements open after a tag; None where the tag must not stand. */
  ghost function Enter(outer: seq<Element>, tag: Bytes): (r: Option<seq<Element>>) {
    if tag == [] then None
    else if tag[0] == '?' then if outer == [] then Some([]) else None
    else if tag[0] == '/' then
      if outer != [] && tag[1..] == NameOf(outer[|outer| - 1]) then Some(outer[..|outer| - 1]) else None
    else if tag[|tag| - 1] == '/' then
      if exists e :: MayHold(outer, e) && Names(tag[..|tag| - 1], e) then Some(outer) else None
    else if e :| MayHold(outer, e) && Names(tag, e) then Some(outer + [e])
    else None
  }

  /** A tag names at most one of the elements that may stand in a place. */
  lemma OneName(tag: Bytes, outer: seq<Element>, d: Element, e: Element)
    requires MayHold(outer, d) && MayHold(outer, e) && Names(tag, d) && Names(tag, e)
    ensures d == e
  {
    if |tag| > 3 {
      assert tag[2] == NameOf(d)[2] && tag[2] == NameOf(e)[2];
      assert |NameOf(d)| == 3 ==> tag[3] == ' ';
    }
  }

  /** Text may stand in a text element; elsewhere there may only be white space. */
  predicate MayStand(outer: seq<Element>, b: Byte) {
    b == ' ' || b == '\n' || (outer != [] && outer[|outer| - 1] == Text && b != '>')
  }

  /** The elements open after some markup that starts in others; None where it is not well nested. */
  ghost function Nest(x: Bytes, outer: seq<Element>): (r: Option<seq<Element>>)
    decreases |x|
  {
    if x == [] then Some(outer)
    else if x[0] != '<' then if MayStand(outer, x[0]) then Nest(x[1..], outer) else None
    else
      var e := TagEnd(x);
      if e == |x| then None
      else match Enter(outer, x[1..e])
        case Some(inner) => Nest(x[e + 1..], inner)
        case None => None
  }

  lemma NestTag(tag: Bytes, rest: Bytes, outer: seq<Element>)
    requires Closed(tag)
    ensures Nest(Tag(tag) + rest, outer) ==
            match Enter(outer, tag) case Some(inner) => Nest(rest, inner) case None => None
  {
    hide Enter, Tag;
    TagSplit(tag, rest);
  }

  lemma {:induction false} NestText(t: Bytes, rest: Bytes, outer: seq<Element>)
    requires forall b :: b in t ==> b != '<' && MayStand(outer, b)
    ensures Nest(t + rest, outer) == Nest(rest, outer)
    decreases |t|
  {
    hide MayStand, Enter;
    if t == [] {
      assert t + rest == rest;
    } else {
      assert t[0] in t && (t + rest)[1..] == t[1..] + rest;
      assert forall b :: b in t[1..] ==> b in t;
      NestText(t[1..], rest, outer);
    }
  }

  const IN_DOC: seq<Element> := [Document]
  const IN_BODY: seq<Element> := [Document, Body]
  const IN_P: seq<Element> := [Document, Body, Paragraph]
  const IN_R: seq<Element> := [Document, Body, Paragraph, Run]
  const IN_PROPS: seq<Element> := [Document, Body, Paragraph, Run, Properties]
  const IN_TEXT: seq<Element> := [Document, Body, Paragraph, Run, Text]

  /** An opening tag. */
  lemma Opens(outer: seq<Element>, tag: Bytes, e: Element)
    requires tag != [] && tag[0] == 'w' && tag[|tag| - 1] != '/' && MayHold(outer, e) && Names(tag, e)
    ensures Enter(outer, tag) == Some(outer + [e])
  {
    forall d | MayHold(outer, d) && Names(tag, d) ensures d == e { OneName(tag, outer, d, e); }
  }

  /** A tag that opens and closes at once. */
  lemma Stands(outer: seq<Element>, tag: Bytes, e: Element)
    requires tag != [] && tag[0] == 'w' && MayHold(outer, e) && Names(tag, e)
    ensures Enter(outer, tag + "/") == Some(outer)
  {
    var t := tag + "/";
    assert t[..|t| - 1] == tag && t[0] == 'w';
  }

  /** A closing tag. */
  lemma Closes(outer: seq<Element>, e: Element)
    ensures Enter(outer + [e], "/" + NameOf(e)) == Some(outer)
  {
    assert ("/" + NameOf(e))[1..] == NameOf(e) && (outer + [e])[..|outer|] == outer;
  }

  lemma EnterRun()
    ensures Enter(IN_P, "w:r") == Some(IN_R) && Enter(IN_R, "/w:r") == Some(IN_P)
    ensures Enter(IN_R, "w:rPr") == Some(IN_PROPS) && Enter(IN_PROPS, "/w:rPr") == Some(IN_R)
  {
    Opens(IN_P, "w:r", Run);
    Closes(IN_P, Run);
    Opens(IN_R, "w:rPr", Properties);
    Closes(IN_R, Properties);
    assert IN_P + [Run] == IN_R && IN_R + [Properties] == IN_PROPS;
    assert "/" + NameOf(Run) == "/w:r" && "/" + NameOf(Properties) == "/w:rPr";
  }

  lemma EnterProps()
    ensures Enter(IN_PROPS, "w:b/") == Some(IN_PROPS) && Enter(IN_PROPS, "w:i/") == Some(IN_PROPS)
  {
    Stands(IN_PROPS, "w:b", Bold);
    Stands(IN_PROPS, "w:i", Italic);
    assert "w:b" + "/" == "w:b/" && "w:i" + "/" == "w:i/";
  }

  lemma EnterSize(n: nat)
    ensures Closed(SizeTag(n)) && Enter(IN_PROPS, SizeTag(n)) == Some(IN_PROPS)
  {
    hide Digits;
    SizeTagShape(n);
    var t: Bytes := "w:sz " + ("w:val=\"" + (Digits(n) + "\" "));
    assert t[..5] == NameOf(Size) + " " && t[0] == 'w';
    Stands(IN_PROPS, t, Size);
    assert SizeTag(n) == t + "/";
  }

  lemma EnterText()
    ensures Closed(TEXT_TAG) && Enter(IN_R, TEXT_TAG) == Some(IN_TEXT) && Enter(IN_TEXT, "/w:t") == Some(IN_R)
  {
    assert TEXT_TAG[0] == 'w' && TEXT_TAG[|TEXT_TAG| - 1] == '"' && TEXT_TAG[..4] == NameOf(Text) + " ";
    Opens(IN_R, TEXT_TAG, Text);
    Closes(IN_R, Text);
    assert IN_R + [Text] == IN_TEXT && "/" + NameOf(Text) == "/w:t";
  }

  lemma EnterBlocks()
    ensures Enter(IN_BODY, "w:p") == Some(IN_P) && Enter(IN_P, "/w:p") == Some(IN_BODY)
    ensures Enter(IN_DOC, "w:body") == Some(IN_BODY) && Enter(IN_BODY, "/w:body") == Some(IN_DOC)
  {
    Opens(IN_BODY, "w:p", Paragraph);
    Closes(IN_BODY, Paragraph);
    Opens(IN_DOC, "w:body", Body);
    Closes(IN_DOC, Body);
    assert IN_BODY + [Paragraph] == IN_P && IN_DOC + [Body] == IN_BODY;
    assert "/" + NameOf(Paragraph) == "/w:p" && "/" + NameOf(Body) == "/w:body";
  }

  lemma EnterDocument()
    ensures Enter([], DOC_TAG) == Some(IN_DOC) && Enter(IN_DOC, "/w:document") == Some([])
    ensures Enter([], XML_TAG) == Some([])
  {
    assert DOC_TAG[0] == 'w' && DOC_TAG[|DOC_TAG| - 1] == '"' && DOC_TAG[..11] == NameOf(Document) + " ";
    Opens([], DOC_TAG, Document);
    Closes([], Document);
    assert [] + [Document] == IN_DOC && "/" + NameOf(Document) == "/w:document";
    assert XML_TAG[0] == '?';
  }

  lemma {:induction false} EscapedIsSafe(t: Bytes)
    ensures '<' !in Escape(t) && '>' !in Escape(t)
    decreases |t|
  {
    if t != [] { EscapedIsSafe(t[1..]); }
  }

  lemma PropsNest(s: TextStyle, rest: Bytes)
    ensures Nest(Props(s) + rest, IN_R) == Nest(rest, IN_R)
  {
    hide Nest, Enter, Tag, SizeTag;
    EnterRun();
    EnterProps();
    EnterSize(HalfPoints(s.size));
    if s.bold || s.italic || s.size != 16 {
      var b, i := if s.bold then Tag("w:b/") else [], if s.italic then Tag("w:i/") else [];
      var z, end := if s.size != 16 then Tag(SizeTag(HalfPoints(s.size))) else [], Tag("/w:rPr") + rest;
      assert Props(s) + rest == Tag("w:rPr") + (b + (i + (z + end)));
      NestTag("w:rPr", b + (i + (z + end)), IN_R);
      if s.bold { NestTag("w:b/", i + (z + end), IN_PROPS); } else { assert b + (i + (z + end)) == i + (z + end); }
      if s.italic { NestTag("w:i/", z + end, IN_PROPS); } else { assert i + (z + end) == z + end; }
      if s.size != 16 { NestTag(SizeTag(HalfPoints(s.size)), end, IN_PROPS); } else { assert z + end == end; }
      NestTag("/w:rPr", rest, IN_PROPS);
    } else {
      assert Props(s) + rest == rest;
    }
  }

  lemma RunNests(s: TextStyle, t: Bytes, rest: Bytes)
    ensures Nest(RunXml(s, t) + rest, IN_P) == Nest(rest, IN_P)
  {
    hide Nest, Enter, Tag, Props, Escape;
    EnterRun();
    EnterText();
    var r3 := Tag("/w:t") + (Tag("/w:r") + rest);
    var r2 := Escape(t) + r3;
    var r1 := Tag(TEXT_TAG) + r2;
    RunShape(s, t, rest);
    NestTag("w:r", Props(s) + r1, IN_P);
    PropsNest(s, r1);
    NestTag(TEXT_TAG, r2, IN_R);
    EscapedIsSafe(t);
    NestText(Escape(t), r3, IN_TEXT);
    NestTag("/w:t", Tag("/w:r") + rest, IN_TEXT);
    NestTag("/w:r", rest, IN_R);
  }

  lemma RunShape(s: TextStyle, t: Bytes, rest: Bytes)
    ensures RunXml(s, t) + rest ==
            Tag("w:r") + (Props(s) + (Tag(TEXT_TAG) + (Escape(t) + (Tag("/w:t") + (Tag("/w:r") + rest)))))
  {
    hide Tag, Props, Escape;
    var a, b, c, d, e, f := Tag("w:r"), Props(s), Tag(TEXT_TAG), Escape(t), Tag("/w:t"), Tag("/w:r");
    Assoc(a, b + (c + (d + (e + f))), rest);
    Assoc(b, c + (d + (e + f)), rest);
    Assoc(c, d + (e + f), rest);
    Assoc(d, e + f, rest);
    Assoc(e, f, rest);
  }

  lemma {:induction false} RunsNest(text: Bytes, spans: seq<TextSpan>, pos: nat, end: nat, rest: Bytes)
    requires pos <= end <= |text|
    ensures Nest(RunsXml(text, spans, pos, end) + rest, IN_P) == Nest(rest, IN_P)
    decreases end - pos
  {
    hide Nest, RunXml, RunAt;
    if pos == end {
      assert [] + rest == rest;
    } else {
      var (style, e) := RunAt(spans, pos, end);
      RunsNest(text, spans, e, end, rest);
      RunNests(style, text[pos..e], RunsXml(text, spans, e, end) + rest);
      Assoc(RunXml(style, text[pos..e]), RunsXml(text, spans, e, end), rest);
    }
  }

  lemma ParagraphNests(text: Bytes, spans: seq<TextSpan>, pos: nat, end: nat, rest: Bytes)
    requires pos <= end <= |text|
    ensures Nest(ParagraphXml(text, spans, pos, end) + rest, IN_BODY) == Nest(rest, IN_BODY)
  {
    hide Nest, Enter, Tag, RunsXml;
    EnterBlocks();
    var a, b, c := Tag("w:p"), RunsXml(text, spans, pos, end), Tag("/w:p");
    Assoc(a, b + c, rest);
    Assoc(b, c, rest);
    NestTag("w:p", b + (c + rest), IN_BODY);
    RunsNest(text, spans, pos, end, c + rest);
    NestTag("/w:p", rest, IN_P);
  }

  lemma {:induction false} LinesNest(text: Bytes, spans: seq<TextSpan>, pos: nat, rest: Bytes)
    requires pos <= |text|
    ensures Nest(LinesXml(text, spans, pos) + rest, IN_BODY) == Nest(rest, IN_BODY)
    decreases |text| - pos
  {
    hide Nest, ParagraphXml;
    var e := LineEnd(text, pos);
    var more := if e < |text| then LinesXml(text, spans, e + 1) else [];
    ParagraphNests(text, spans, pos, e, more + rest);
    Assoc(ParagraphXml(text, spans, pos, e), more, rest);
    if e < |text| {
      LinesNest(text, spans, e + 1, rest);
    } else {
      assert more + rest == rest;
    }
  }

  /** Every saved document is well nested, each element where the format has it, and with text in text
      elements only. */
  lemma DocumentNests(text: Bytes, spans: seq<TextSpan>)
    ensures Nest(DocumentXml(text, spans), []) == Some([])
  {
    hide Nest, Enter, Tag, LinesXml, Header;
    EnterBlocks();
    EnterDocument();
    var end := Tag("/w:body") + Tag("/w:document");
    var body := LinesXml(text, spans, 0) + end;
    HeaderNests(body);
    LinesNest(text, spans, 0, end);
    NestTag("/w:body", Tag("/w:document"), IN_BODY);
    assert Tag("/w:document") + [] == Tag("/w:document");
    NestTag("/w:document", [], IN_DOC);
    assert Nest([], []) == Some([]) by { NothingNested(); }
  }

  lemma NothingNested()
    ensures Nest([], []) == Some([])
  {}

  lemma HeaderNests(rest: Bytes)
    ensures Nest(Header() + rest, []) == Nest(rest, IN_BODY)
  {
    hide Nest, Enter, Tag;
    EnterBlocks();
    EnterDocument();
    XmlTag();
    DocTag();
    var r4 := Tag("w:body") + rest;
    var r3: Bytes := "\n  " + r4;
    var r2 := Tag(DOC_TAG) + r3;
    var r1: Bytes := "\n" + r2;
    assert Header() + rest == Tag(XML_TAG) + r1;
    NestTag(XML_TAG, r1, []);
    NestText("\n", r2, []);
    NestTag(DOC_TAG, r3, []);
    NestText("\n  ", r4, IN_DOC);
    NestTag("w:body", rest, IN_DOC);
  }

  // ----- the bytes themselves -----

  /** The opening of every document. */
  lemma HeaderIs()
    ensures Header() ==
            "<" + ("?xml version=\"1.0\" " + "encoding=\"UTF-8\" " + "standalone=\"yes\"?") + ">" + "\n"
            + ("<" + ("w:document xmlns:w=\"" + "http://schemas." + "openxmlformats.org/" + "wordprocessingml/"
                      + "2006/main\"") + ">")
            + "\n  " + "<w:body>"
  {
    assert Tag("w:body") == "<w:body>";
  }

  /** Every run: its properties, if any, and its text, whose white space is to be kept. */
  lemma RunIs(s: TextStyle, t: Bytes)
    ensures RunXml(s, t) == "<w:r>" + (Props(s) + ("<w:t xml:space=\"preserve\">" + (Escape(t) + "</w:t></w:r>")))
  {
    hide Props, Escape;
    assert Tag(TEXT_TAG) == "<w:t xml:space=\"preserve\">";
    assert Tag("/w:t") + Tag("/w:r") == "</w:t></w:r>";
  }

  /** The properties: what is not as by default. */
  lemma PropsAre(s: TextStyle)
    requires s != TextStyle(false, false, 16)
    ensures Props(s) ==
            "<w:rPr>" + ((if s.bold then "<w:b/>" else "") + ((if s.italic then "<w:i/>" else "")
            + ((if s.size != 16 then "<w:sz w:val=\"" + (Digits(s.size * 2 % 0x1_0000) + "\" />") else "")
               + "</w:rPr>")))
  {
    hide Digits;
    SizeIs(HalfPoints(s.size));
    assert Tag("w:rPr") == "<w:rPr>" && Tag("/w:rPr") == "</w:rPr>";
    assert Tag("w:b/") == "<w:b/>" && Tag("w:i/") == "<w:i/>";
  }

  /** Where no span has the text it is written as one run without properties. */
  lemma UnstyledRun(spans: seq<TextSpan>, pos: nat, end: nat)
    requires pos < end && StyleAt(spans, pos) == None
    ensures RunAt(spans, pos, end) == (TextStyle(false, false, 16), end) && Props(RunAt(spans, pos, end).0) == []
  {
    if spans != [] { UnstyledRun(spans[1..], pos, end); }
  }

  lemma SizeIs(n: nat)
    ensures Tag(SizeTag(n)) == "<w:sz w:val=\"" + (Digits(n) + "\" />")
  {
    hide Digits;
  }

  // ----- documents of other writers -----

  /** Bytes that are not in a tag or a text element are skipped. */
  lemma {:induction false} OutsideIsSkipped(junk: Bytes, rest: Bytes, st: State)
    requires '<' !in junk
    ensures Parse(junk + rest, st) == Parse(rest, st)
    decreases |junk|
  {
    hide Parse;
    if junk == [] {
      assert junk + rest == rest;
    } else {
      assert junk[0] in junk && junk + rest == [junk[0]] + (junk[1..] + rest);
      OutsideIsSkipped(junk[1..], rest, st);
      SkipByte(junk[0], junk[1..] + rest, st);
    }
  }

  /** Bold and italic marks may have attributes. */
  lemma MarksMayHaveAttributes(attributes: Bytes, rest: Bytes, st: State)
    requires Closed(attributes)
    ensures Parse(Tag("w:b " + attributes) + rest, st) == Parse(rest, st.(bold := true))
    ensures Parse(Tag("w:i " + attributes) + rest, st) == Parse(rest, st.(italic := true))
  {
    hide Parse, Tag, SizeValue;
    var b: Bytes, i: Bytes := "w:b " + attributes, "w:i " + attributes;
    assert Closed(b) && Closed(i);
    assert b[2] == 'b' && i[2] == 'i' && b[..4] == "w:b " && i[..4] == "w:i ";
    NotText(b);
    NotText(i);
    ReadTag(b, rest, st);
    ReadTag(i, rest, st);
  }

  /** Tags that say nothing the word processor keeps. */
  predicate Unknown(tag: Bytes) {
    && tag != "/w:p" && tag != "w:r" && tag != "w:b/" && tag != "w:i/"
    && !StartsWith(tag, "w:b ") && !StartsWith(tag, "w:i ") && !StartsWith(tag, "w:sz ") && !StartsWith(tag, "w:t")
  }

  lemma UnknownIsSkipped(tag: Bytes, rest: Bytes, st: State)
    requires Closed(tag) && Unknown(tag)
    ensures Parse(Tag(tag) + rest, st) == Parse(rest, st)
  {
    hide Parse, Tag, SizeValue;
    ReadTag(tag, rest, st);
  }

  /** A size is the first number of the attribute, in half points; one that does not fit 16 bits, or
      none at all, changes nothing. */
  lemma SizesAreHalved(n: nat, more: Bytes, rest: Bytes, st: State)
    requires Closed(more) && (more == [] || !IsDigit(more[0]))
    ensures Parse(Tag("w:sz " + ("w:val=\"" + (Digits(n) + more))) + rest, st)
         == Parse(rest, if n <= 0xFFFF then st.(size := n / 2) else st)
  {
    hide Parse, Tag, SizeValue, Digits;
    var v: Bytes := "w:val=\"" + (Digits(n) + more);
    var t: Bytes := "w:sz " + v;
    assert '>' !in Digits(n);
    assert Closed(t) && t[2] == 's' && t[..5] == "w:sz " && |t| >= 5;
    SizeFound(n, more);
    NotText(t);
    assert !StartsWith(t, "w:b ") && !StartsWith(t, "w:i ") by { assert t[..4][2] == 's'; }
    ReadTag(t, rest, st);
  }

  lemma SizeFound(n: nat, more: Bytes)
    requires more == [] || !IsDigit(more[0])
    ensures SizeValue("w:sz " + ("w:val=\"" + (Digits(n) + more))) == if n <= 0xFFFF then Some(n) else None
  {
    hide Digits, SizeValue;
    var v: Bytes := "w:val=\"" + (Digits(n) + more);
    SkipOne('w', [':'] + (['s'] + (['z'] + ([' '] + v))));
    SkipOne(':', ['s'] + (['z'] + ([' '] + v)));
    SkipOne('s', ['z'] + ([' '] + v));
    SkipOne('z', [' '] + v);
    SkipOne(' ', v);
    assert "w:sz " + v == ['w'] + ([':'] + (['s'] + (['z'] + ([' '] + v))));
    NumberAfterPrefix(n, more);
  }

  lemma NumberAfterPrefix(n: nat, more: Bytes)
    requires more == [] || !IsDigit(more[0])
    ensures SizeValue("w:val=\"" + (Digits(n) + more)) == if n <= 0xFFFF then Some(n) else None
  {
    hide Digits, Decimal, DigitRun;
    var p: Bytes := "w:val=\"";
    var x := p + (Digits(n) + more);
    assert x[..7] == p && x[7..] == Digits(n) + more;
    DecimalOfDigits(n);
    DigitRunOf(Digits(n), more);
    assert x[7..][..|Digits(n)|] == Digits(n);
  }

  /** Every tag that starts as a text tag does opens a text element: what follows up to its end is added
      in the styles set so far, with a span of its own unless it is empty. */
  lemma TextElements(tag: Bytes, raw: Bytes, rest: Bytes, st: State)
    requires Closed(tag) && StartsWith(tag, "w:t") && '<' !in raw
    ensures Parse(Tag(tag) + (raw + ("</w:t>" + rest)), st) ==
            match Unescape(raw)
            case None => OutOfRange
            case Some(t) => Parse(rest, if t == [] then st else State(st.bold, st.italic, st.size, st.text + t,
              st.spans + [TextSpan(|st.text|, |st.text| + |t|, TextStyle(st.bold, st.italic, st.size))]))
  {
    hide Tag, Unescape, CloseAt, ApplyTag;
    var more := raw + ("</w:t>" + rest);
    TagSplit(tag, more);
    CloseAfter(raw, rest);
    assert more[..|raw|] == raw && more[|raw| + 6..] == rest;
  }

  /** Text that is in no run is plain and has the default size. */
  lemma PlainByDefault(raw: Bytes, t: Bytes)
    requires '<' !in raw && Unescape(raw) == Some(t) && t != []
    ensures Parse(Tag("w:t") + (raw + "</w:t>"), START) == Opened(t, [TextSpan(0, |t|, TextStyle(false, false, 16))])
  {
    hide Parse, Unescape, Tag;
    TextElements("w:t", raw, [], START);
    var span := TextSpan(0, |t|, TextStyle(false, false, 16));
    assert "</w:t>" + [] == "</w:t>" && [] + t == t && [] + [span] == [span];
    NothingLeft(State(false, false, 16, t, [TextSpan(0, |t|, TextStyle(false, false, 16))]));
  }

  /** A text element that is not closed runs out of range, unless fewer than five bytes follow. */
  lemma UnclosedText(tag: Bytes, raw: Bytes, st: State)
    requires Closed(tag) && StartsWith(tag, "w:t") && '<' !in raw
    ensures Parse(Tag(tag) + raw, st) == if |raw| >= 5 then OutOfRange else Opened(st.text, st.spans)
  {
    hide Tag, Unescape, CloseAt, ApplyTag, Parse;
    TagSplit(tag, raw);
    NeverClosed(raw);
    OpenText(tag, raw, st);
    OutsideIsSkipped(raw, [], st);
    assert raw + [] == raw;
    NothingLeft(st);
  }

  lemma OpenText(tag: Bytes, raw: Bytes, st: State)
    requires Closed(tag) && StartsWith(tag, "w:t") && CloseAt(raw) == None
    ensures Parse(Tag(tag) + raw, st) == if |raw| >= 5 then OutOfRange else Parse(raw, st)
  {
    hide Tag, Unescape, CloseAt, ApplyTag;
    TagSplit(tag, raw);
  }

  lemma NothingLeft(st: State)
    ensures Parse([], st) == Opened(st.text, st.spans)
  {}

  lemma {:induction false} NeverClosed(x: Bytes)
    requires '<' !in x
    ensures CloseAt(x) == None
    decreases |x|
  {
    if |x| >= 6 {
      assert x[..6][0] == x[0] && x[0] in x;
      NeverClosed(x[1..]);
    }
  }

  /** Where an entity of the format stands. */
  predicate EntityAt(x: Bytes, i: nat)
    requires i <= |x|
  {
    StartsWith(x[i..], "&amp;") || StartsWith(x[i..], "&lt;") || StartsWith(x[i..], "&gt;")
  }

  /** An ampersand with two or three bytes behind it, where the look-ahead leaves the text. */
  predicate LateAt(x: Bytes, i: nat)
    requires i < |x|
  {
    x[i] == '&' && 3 <= |x| - i <= 4
  }

  /** Text without entities is kept as it is, ampersands included, or runs out of range exactly when an
      ampersand stands third or fourth from the end. */
  lemma {:induction false} LoneAmpersands(x: Bytes)
    requires forall i :: 0 <= i < |x| ==> !EntityAt(x, i)
    ensures Unescape(x) == if exists i :: 0 <= i < |x| && LateAt(x, i) then None else Some(x)
    decreases |x|
  {
    if x != [] {
      var y := x[1..];
      forall i | 0 <= i < |y| ensures !EntityAt(y, i) && (LateAt(y, i) <==> LateAt(x, i + 1)) {
        assert y[i..] == x[i + 1..] && !EntityAt(x, i + 1);
      }
      LoneAmpersands(y);
      assert x[0..] == x && !EntityAt(x, 0);
      Later(x);
      assert x == [x[0]] + y;
    }
  }

  lemma Later(x: Bytes)
    requires x != [] && forall i :: 0 <= i < |x[1..]| ==> (LateAt(x[1..], i) <==> LateAt(x, i + 1))
    ensures (exists i :: 0 <= i < |x| && LateAt(x, i)) <==>
            LateAt(x, 0) || exists i :: 0 <= i < |x[1..]| && LateAt(x[1..], i)
  {
    if i :| 0 <= i < |x| && LateAt(x, i) {
      if i > 0 { assert LateAt(x[1..], i - 1); }
    }
    if i :| 0 <= i < |x[1..]| && LateAt(x[1..], i) { assert LateAt(x, i + 1); }
  }

  /** Of the texts "R&D", "R&Ds" and "R&D etc." of another writer the second cannot be opened. */
  lemma AmpersandExample()
    ensures Unescape("R&D") == Some("R&D") && Unescape("R&Ds") == None && Unescape("R&D etc.") == Some("R&D etc.")
  {
    var a: Bytes, b: Bytes, c: Bytes := "R&D", "R&Ds", "R&D etc.";
    assert forall i :: 0 <= i < |a| ==> !EntityAt(a, i) by { NoEntities(a); }
    assert forall i :: 0 <= i < |b| ==> !EntityAt(b, i) by { NoEntities(b); }
    assert forall i :: 0 <= i < |c| ==> !EntityAt(c, i) by { NoEntities(c); }
    LoneAmpersands(a);
    LoneAmpersands(b);
    LoneAmpersands(c);
    assert LateAt(b, 1);
  }

  lemma NoEntities(x: Bytes)
    requires forall i :: 0 <= i < |x| && x[i] == '&' ==> i + 1 < |x| && x[i + 1] == 'D'
    ensures forall i :: 0 <= i < |x| ==> !EntityAt(x, i)
  {
    forall i | 0 <= i < |x| ensures !EntityAt(x, i) {
      var y := x[i..];
      if |y| >= 4 { assert y[..4][0] == x[i] && y[..4][1] == x[i + 1]; }
      if |y| >= 5 { assert y[..5][0] == x[i] && y[..5][1] == x[i + 1]; }
    }
  }
}
