/** Saving a document and opening it again: which texts survive, and with which
    styles. */
module DocxRoundTrip {
  import opened Basics
  import opened Spans
  import opened DocxText

  // ----- tags -----

  predicate Closed(tag: Bytes) { '>' !in tag }

  lemma {:induction false} TagEndAt(a: Bytes, rest: Bytes)
    requires Closed(a)
    ensures TagEnd(a + ">" + rest) == |a|
  {
    var x := a + ">" + rest;
    if a != [] {
      assert a[0] in a;
      TagEndAt(a[1..], rest);
      assert x[1..] == a[1..] + ">" + rest;
    }
  }

  lemma TagSplit(tag: Bytes, rest: Bytes)
    requires Closed(tag)
    ensures var x := Tag(tag) + rest;
            && x[0] == '<' && TagEnd(x) == |tag| + 1 < |x|
            && x[1..|tag| + 1] == tag && x[|tag| + 2..] == rest
  {
    var a: Bytes := "<" + tag;
    assert Closed(a);
    TagEndAt(a, rest);
    assert Tag(tag) + rest == a + ">" + rest;
  }

  lemma ReadTag(tag: Bytes, rest: Bytes, st: State)
    requires Closed(tag) && !IsText(tag)
    ensures Parse(Tag(tag) + rest, st) == Parse(rest, ApplyTag(tag, st))
  {
    hide ApplyTag, Tag;
    TagSplit(tag, rest);
  }

  /** Tags of the format that only give structure. */
  predicate Structural(tag: Bytes) {
    tag == "w:p" || tag == "w:rPr" || tag == "/w:rPr" || tag == "/w:r"
    || tag == "w:body" || tag == "/w:body" || tag == "/w:document"
  }

  lemma ReadStructural(tag: Bytes, rest: Bytes, st: State)
    requires Structural(tag)
    ensures Parse(Tag(tag) + rest, st) == Parse(rest, st)
  {
    hide Parse, Tag;
    assert !StartsWith(tag, "w:b ") by { if |tag| >= 4 { assert tag[3] != ' '; } }
    assert !StartsWith(tag, "w:i ") by { if |tag| >= 4 { assert tag[3] != ' '; } }
    assert !StartsWith(tag, "w:sz ") by { if |tag| >= 5 { assert tag[4] != ' '; } }
    assert !StartsWith(tag, "w:t") by { if |tag| >= 3 { assert tag[2] != 't'; } }
    ReadTag(tag, rest, st);
  }

  lemma NotText(tag: Bytes)
    requires |tag| < 3 || tag[0] != 'w' || tag[2] != 't'
    ensures !IsText(tag)
  {
    if |tag| >= 3 { assert tag[..3][0] == tag[0] && tag[..3][2] == tag[2]; }
  }

  lemma ReadStyleTags(rest: Bytes, st: State)
    ensures Parse(Tag("/w:p") + rest, st) == Parse(rest, st.(text := st.text + "\n"))
    ensures Parse(Tag("w:r") + rest, st) == Parse(rest, st.(bold := false, italic := false, size := 16))
    ensures Parse(Tag("w:b/") + rest, st) == Parse(rest, st.(bold := true))
    ensures Parse(Tag("w:i/") + rest, st) == Parse(rest, st.(italic := true))
  {
    hide Parse, Tag;
    NotText("/w:p");
    NotText("w:r");
    ReadTag("/w:p", rest, st);
    ReadTag("w:r", rest, st);
    ReadTag("w:b/", rest, st);
    ReadTag("w:i/", rest, st);
  }

  // ----- the size attribute -----

  lemma {:induction false} DecimalOfDigits(n: nat)
    ensures forall i :: 0 <= i < |Digits(n)| ==> IsDigit(Digits(n)[i])
    ensures Decimal(Digits(n)) == n
  {
    if n < 10 {
      assert Digits(n)[..0] == [];
    } else {
      DecimalOfDigits(n / 10);
      assert Digits(n)[..|Digits(n)| - 1] == Digits(n / 10);
    }
  }

  lemma {:induction false} DigitRunOf(d: Bytes, rest: Bytes)
    requires (forall i :: 0 <= i < |d| ==> IsDigit(d[i])) && (rest == [] || !IsDigit(rest[0]))
    ensures DigitRun(d + rest) == |d|
  {
    if d == [] {
      assert d + rest == rest;
    } else {
      assert IsDigit(d[0]);
      DigitRunOf(d[1..], rest);
      assert (d + rest)[1..] == d[1..] + rest;
    }
  }

  lemma ValueAfterPrefix(n: nat)
    requires n <= 0xFFFF
    ensures SizeValue("w:val=\"" + (Digits(n) + "\" /")) == Some(n)
  {
    hide Digits, Decimal, DigitRun;
    var p: Bytes := "w:val=\"";
    var tail: Bytes := "\" /";
    var x := p + (Digits(n) + tail);
    assert x[..7] == p && x[7..] == Digits(n) + tail;
    DecimalOfDigits(n);
    DigitRunOf(Digits(n), tail);
    assert (Digits(n) + tail)[..|Digits(n)|] == Digits(n);
  }

  lemma SkipOne(b: Byte, x: Bytes)
    requires b != 'w' || (|x| >= 2 && x[1] != 'v')
    ensures SizeValue([b] + x) == SizeValue(x)
  {
    hide DigitRun, ParseU16, StartsWith;
    var y := [b] + x;
    assert y[1..] == x;
    NotPrefix(b, x);
  }

  lemma NotPrefix(b: Byte, x: Bytes)
    requires b != 'w' || (|x| >= 2 && x[1] != 'v')
    ensures !StartsWith([b] + x, "w:val=\"")
  {
    var y := [b] + x;
    if |y| >= 7 { assert y[..7][0] == b && y[..7][2] == x[1]; }
  }

  lemma SizeRoundTrip(n: nat)
    requires n <= 0xFFFF
    ensures SizeValue(SizeTag(n)) == Some(n)
  {
    hide Digits, SizeValue;
    var v: Bytes := "w:val=\"" + (Digits(n) + "\" /");
    SkipOne('w', [':'] + (['s'] + (['z'] + ([' '] + v))));
    SkipOne(':', ['s'] + (['z'] + ([' '] + v)));
    SkipOne('s', ['z'] + ([' '] + v));
    SkipOne('z', [' '] + v);
    SkipOne(' ', v);
    ValueAfterPrefix(n);
    assert SizeTag(n) == ['w'] + ([':'] + (['s'] + (['z'] + ([' '] + v))));
  }

  lemma SizeTagShape(n: nat)
    ensures var t := SizeTag(n);
            && Closed(t) && StartsWith(t, "w:sz ") && |t| >= 15
            && t[2] == 's' && t[0] == 'w'
  {
    hide Digits;
    assert '>' !in Digits(n);
  }

  lemma ReadSize(n: nat, rest: Bytes, st: State)
    requires n <= 0xFFFF
    ensures Parse(Tag(SizeTag(n)) + rest, st) == Parse(rest, st.(size := n / 2))
  {
    hide Parse, Tag, SizeTag, SizeValue;
    SizeTagShape(n);
    SizeRoundTrip(n);
    ReadTag(SizeTag(n), rest, st);
  }

  // ----- text elements -----

  lemma {:induction false} CloseAfter(x: Bytes, rest: Bytes)
    requires '<' !in x
    ensures CloseAt(x + ("</w:t>" + rest)) == Some(|x|)
  {
    var y := x + ("</w:t>" + rest);
    if x == [] {
      assert y[..6] == "</w:t>";
    } else {
      assert x[0] in x && y[0] == x[0];
      assert y[..6][0] != '<';
      CloseAfter(x[1..], rest);
      assert y[1..] == x[1..] + ("</w:t>" + rest);
    }
  }

  lemma {:induction false} EscapeHasNoAngle(t: Bytes)
    ensures '<' !in Escape(t)
  {
    if t != [] { EscapeHasNoAngle(t[1..]); }
  }

  predicate BadEnd(t: Bytes) { t != [] && (t[|t| - 1] == '<' || t[|t| - 1] == '>') }

  /** Undoing the escapes gives the text back unless an escape of four bytes ends it. */
  lemma {:induction false} UnescapeOfEscape(t: Bytes)
    ensures Unescape(Escape(t)) == if BadEnd(t) then None else Some(t)
  {
    if t != [] {
      var b, more := t[0], Escape(t[1..]);
      UnescapeOfEscape(t[1..]);
      assert t == [b] + t[1..];
      var x := EscapeByte(b) + more;
      if t[1..] != [] { assert t[|t| - 1] == t[1..][|t| - 2]; }
      if b == '&' {
        assert x[..5] == "&amp;" && x[5..] == more;
      } else if b == '<' || b == '>' {
        assert x[1] != 'a' && x[4..] == more;
        if more == [] {
          EscapeEmpty(t[1..]);
          assert |x| == 4;
        } else {
          assert x[..5][1] != 'a' && x[..4] == EscapeByte(b);
          assert b == '>' ==> x[..4][1] != 'l';
        }
      } else {
        assert x[1..] == more;
      }
    }
  }

  lemma EscapeEmpty(t: Bytes)
    requires Escape(t) == []
    ensures t == []
  {}

  lemma ReadText(t: Bytes, rest: Bytes, st: State)
    ensures Parse(Tag(TEXT_TAG) + (Escape(t) + (Tag("/w:t") + rest)), st) ==
            if BadEnd(t) then OutOfRange else Parse(rest, AddText(t, st))
  {
    hide Escape, Unescape, CloseAt, AddText, Tag, TagEnd, ApplyTag, IsText, BadEnd;
    var after := Escape(t) + (Tag("/w:t") + rest);
    TextTag();
    TagSplit(TEXT_TAG, after);
    EscapeHasNoAngle(t);
    CloseAfter(Escape(t), rest);
    EndTag(rest);
    assert after[..|Escape(t)|] == Escape(t);
    assert after[|Escape(t)| + 6..] == rest;
    UnescapeOfEscape(t);
  }

  lemma TextTag()
    ensures Closed(TEXT_TAG) && IsText(TEXT_TAG)
  {}

  lemma EndTag(rest: Bytes)
    ensures Tag("/w:t") + rest == "</w:t>" + rest && |"</w:t>"| == 6
  {}

  // ----- runs -----

  /** What a style becomes in the file: the size loses its top bit. */
  function StoredStyle(s: TextStyle): (r: TextStyle) {
    s.(size := HalfPoints(s.size) / 2)
  }

  function Styled(s: TextStyle, st: State): (r: State) {
    st.(bold := s.bold, italic := s.italic, size := s.size)
  }

  lemma ReadProps(s: TextStyle, rest: Bytes, st: State)
    requires !st.bold && !st.italic && st.size == 16
    ensures Parse(Props(s) + rest, st) == Parse(rest, Styled(StoredStyle(s), st))
  {
    hide Parse, Tag, SizeTag;
    if s.bold || s.italic || s.size != 16 {
      var z := if s.size != 16 then Tag(SizeTag(HalfPoints(s.size))) else [];
      var i: Bytes := if s.italic then Tag("w:i/") else [];
      var b: Bytes := if s.bold then Tag("w:b/") else [];
      var end := Tag("/w:rPr") + rest;
      assert Props(s) + rest == Tag("w:rPr") + (b + (i + (z + end)));
      ReadStructural("w:rPr", b + (i + (z + end)), st);
      var st1 := st.(bold := s.bold);
      ReadStyleTags(i + (z + end), st);
      assert Parse(b + (i + (z + end)), st) == Parse(i + (z + end), st1) by {
        if !s.bold { assert b + (i + (z + end)) == i + (z + end); }
      }
      var st2 := st1.(italic := s.italic);
      ReadStyleTags(z + end, st1);
      assert Parse(i + (z + end), st1) == Parse(z + end, st2) by { if !s.italic { assert i + (z + end) == z + end; } }
      var st3 := Styled(StoredStyle(s), st);
      ReadSize(HalfPoints(s.size), end, st2);
      assert Parse(z + end, st2) == Parse(end, st3) by { if s.size == 16 { assert z + end == end; } }
      ReadStructural("/w:rPr", rest, st3);
    } else {
      assert Props(s) + rest == rest;
    }
  }

  function AfterRun(s: TextStyle, t: Bytes, st: State): (r: State) {
    AddText(t, Styled(StoredStyle(s), st))
  }

  lemma ReadRun(s: TextStyle, t: Bytes, rest: Bytes, st: State)
    ensures Parse(RunXml(s, t) + rest, st) == if BadEnd(t) then OutOfRange else Parse(rest, AfterRun(s, t, st))
  {
    hide Parse, Tag, Props, Escape, AddText, BadEnd, StoredStyle;
    var r3 := Tag("/w:r") + rest;
    var r2 := Tag(TEXT_TAG) + (Escape(t) + (Tag("/w:t") + r3));
    assert RunXml(s, t) + rest == Tag("w:r") + (Props(s) + r2);
    ReadStyleTags(Props(s) + r2, st);
    ReadProps(s, r2, st.(bold := false, italic := false, size := 16));
    ReadText(t, r3, Styled(StoredStyle(s), st));
    ReadStructural("/w:r", rest, AfterRun(s, t, st));
  }

  predicate BadRuns(text: Bytes, spans: seq<TextSpan>, pos: nat, end: nat)
    requires pos <= end <= |text|
    decreases end - pos
  {
    pos < end &&
    var (_, e) := RunAt(spans, pos, end);
    BadEnd(text[pos..e]) || BadRuns(text, spans, e, end)
  }

  /** The spans that opening makes of the runs between two positions. */
  function RunSpans(spans: seq<TextSpan>, pos: nat, end: nat): (r: seq<TextSpan>)
    requires pos <= end
    decreases end - pos
  {
    if pos == end then []
    else
      var (style, e) := RunAt(spans, pos, end);
      [TextSpan(pos, e, StoredStyle(style))] + RunSpans(spans, e, end)
  }

  function AfterRuns(text: Bytes, spans: seq<TextSpan>, pos: nat, end: nat, st: State): (r: State)
    requires pos <= end <= |text|
    decreases end - pos
  {
    if pos == end then st
    else
      var (style, e) := RunAt(spans, pos, end);
      AfterRuns(text, spans, e, end, AfterRun(style, text[pos..e], st))
  }

  lemma {:induction false} ReadRuns(text: Bytes, spans: seq<TextSpan>, pos: nat, end: nat, rest: Bytes, st: State)
    requires pos <= end <= |text|
    ensures Parse(RunsXml(text, spans, pos, end) + rest, st) ==
            if BadRuns(text, spans, pos, end) then OutOfRange else Parse(rest, AfterRuns(text, spans, pos, end, st))
    decreases end - pos
  {
    hide Parse, RunXml, BadEnd, AfterRun, RunAt;
    if pos == end {
      assert RunsXml(text, spans, pos, end) + rest == rest;
    } else {
      var (style, e) := RunAt(spans, pos, end);
      var more := RunsXml(text, spans, e, end) + rest;
      assert RunsXml(text, spans, pos, end) + rest == RunXml(style, text[pos..e]) + more;
      ReadRun(style, text[pos..e], more, st);
      ReadRuns(text, spans, e, end, rest, AfterRun(style, text[pos..e], st));
    }
  }

  lemma {:induction false} RunsState(text: Bytes, spans: seq<TextSpan>, pos: nat, end: nat, st: State)
    requires pos <= end <= |text| && st.text == text[..pos]
    ensures var r := AfterRuns(text, spans, pos, end, st);
            r.text == text[..end] && r.spans == st.spans + RunSpans(spans, pos, end)
    decreases end - pos
  {
    hide RunAt, StoredStyle;
    if pos < end {
      var (style, e) := RunAt(spans, pos, end);
      var st1 := AfterRun(style, text[pos..e], st);
      assert text[..pos] + text[pos..e] == text[..e];
      RunsState(text, spans, e, end, st1);
    }
  }

  // ----- lines -----

  predicate BadLines(text: Bytes, spans: seq<TextSpan>, pos: nat)
    requires pos <= |text|
    decreases |text| - pos
  {
    var e := LineEnd(text, pos);
    BadRuns(text, spans, pos, e) || (e < |text| && BadLines(text, spans, e + 1))
  }

  function LineSpans(text: Bytes, spans: seq<TextSpan>, pos: nat): (r: seq<TextSpan>)
    requires pos <= |text|
    decreases |text| - pos
  {
    var e := LineEnd(text, pos);
    RunSpans(spans, pos, e) + if e < |text| then LineSpans(text, spans, e + 1) else []
  }

  function AfterLine(text: Bytes, spans: seq<TextSpan>, pos: nat, end: nat, st: State): (r: State)
    requires pos <= end <= |text|
  {
    var st1 := AfterRuns(text, spans, pos, end, st);
    st1.(text := st1.text + "\n")
  }

  lemma ReadParagraph(text: Bytes, spans: seq<TextSpan>, pos: nat, end: nat, rest: Bytes, st: State)
    requires pos <= end <= |text|
    ensures Parse(ParagraphXml(text, spans, pos, end) + rest, st) ==
            if BadRuns(text, spans, pos, end) then OutOfRange else Parse(rest, AfterLine(text, spans, pos, end, st))
  {
    hide Parse, RunsXml, Tag, BadRuns, AfterRuns;
    var r2 := Tag("/w:p") + rest;
    assert ParagraphXml(text, spans, pos, end) + rest == Tag("w:p") + (RunsXml(text, spans, pos, end) + r2);
    ReadStructural("w:p", RunsXml(text, spans, pos, end) + r2, st);
    ReadRuns(text, spans, pos, end, r2, st);
    ReadStyleTags(rest, AfterRuns(text, spans, pos, end, st));
  }

  /** From the start of a line to the end of the document. */
  lemma {:induction false} ReadLines(text: Bytes, spans: seq<TextSpan>, pos: nat, st: State)
    requires pos <= |text| && st.text == text[..pos]
    ensures Parse(LinesXml(text, spans, pos) + (Tag("/w:body") + Tag("/w:document")), st) ==
            if BadLines(text, spans, pos) then OutOfRange
            else Opened(text + "\n", st.spans + LineSpans(text, spans, pos))
    decreases |text| - pos
  {
    hide Parse, ParagraphXml, Tag, BadRuns, AfterRuns, RunSpans, LineEnd;
    var e := LineEnd(text, pos);
    var end := Tag("/w:body") + Tag("/w:document");
    var st1 := AfterLine(text, spans, pos, e, st);
    RunsState(text, spans, pos, e, st);
    if e < |text| {
      var more := LinesXml(text, spans, e + 1) + end;
      assert LinesXml(text, spans, pos) + end == ParagraphXml(text, spans, pos, e) + more;
      ReadParagraph(text, spans, pos, e, more, st);
      LineEndsHere(text, pos);
      ReadLines(text, spans, e + 1, st1);
      assert st.spans + RunSpans(spans, pos, e) + LineSpans(text, spans, e + 1)
             == st.spans + LineSpans(text, spans, pos);
    } else {
      assert LinesXml(text, spans, pos) + end == ParagraphXml(text, spans, pos, e) + end;
      ReadParagraph(text, spans, pos, e, end, st);
      assert text[..e] == text;
      ReadEnd(st1);
    }
  }

  lemma LineEndsHere(text: Bytes, pos: nat)
    requires pos <= |text| && LineEnd(text, pos) < |text|
    ensures var e := LineEnd(text, pos); text[..e] + "\n" == text[..e + 1]
  {}

  lemma ReadEnd(st: State)
    ensures Parse(Tag("/w:body") + Tag("/w:document"), st) == Opened(st.text, st.spans)
  {
    hide Tag;
    ReadStructural("/w:body", Tag("/w:document"), st);
    assert Tag("/w:document") + [] == Tag("/w:document");
    ReadStructural("/w:document", [], st);
  }

  lemma SkipByte(b: Byte, rest: Bytes, st: State)
    requires b != '<'
    ensures Parse([b] + rest, st) == Parse(rest, st)
  {
    assert ([b] + rest)[1..] == rest;
  }

  lemma ReadSpace(rest: Bytes, st: State)
    ensures Parse("\n" + rest, st) == Parse(rest, st)
    ensures Parse("\n  " + rest, st) == Parse(rest, st)
  {
    hide Parse;
    SkipByte('\n', rest, st);
    SkipByte(' ', rest, st);
    SkipByte(' ', [' '] + rest, st);
    SkipByte('\n', [' '] + ([' '] + rest), st);
    assert "\n  " + rest == ['\n'] + ([' '] + ([' '] + rest));
  }

  lemma XmlTag()
    ensures Closed(XML_TAG) && XML_TAG[0] == '?' && |XML_TAG| > 5
  {}

  lemma DocTag()
    ensures Closed(DOC_TAG) && DOC_TAG[2] == 'd' && |DOC_TAG| > 5
  {}

  lemma ReadHead(tag: Bytes, rest: Bytes, st: State)
    requires Closed(tag) && |tag| > 5 && (tag[0] == '?' || tag[2] == 'd')
    ensures Parse(Tag(tag) + rest, st) == Parse(rest, st)
  {
    hide Parse, Tag;
    ReadTag(tag, rest, st);
  }

  lemma ReadHeader(rest: Bytes, st: State)
    ensures Parse(Header() + rest, st) == Parse(rest, st)
  {
    hide Parse, Tag;
    var r4 := Tag("w:body") + rest;
    var r3: Bytes := "\n  " + r4;
    var r2 := Tag(DOC_TAG) + r3;
    var r1: Bytes := "\n" + r2;
    assert Header() + rest == Tag(XML_TAG) + r1;
    XmlTag();
    DocTag();
    ReadHead(XML_TAG, r1, st);
    ReadSpace(r2, st);
    ReadHead(DOC_TAG, r3, st);
    ReadSpace(r4, st);
    ReadStructural("w:body", rest, st);
  }

  // ----- the theorem -----

  /** Some run of the saved document ends in an angle bracket. */
  predicate AngleEnds(text: Bytes, spans: seq<TextSpan>) { BadLines(text, spans, 0) }

  /** Opening what was saved gives the text with one more newline and one span
      per run, except that it slices past the end exactly when some run ends in
      an angle bracket. */
  lemma SaveThenOpen(text: Bytes, spans: seq<TextSpan>)
    ensures Parse(DocumentXml(text, spans), START) ==
            if AngleEnds(text, spans) then OutOfRange else Opened(text + "\n", LineSpans(text, spans, 0))
  {
    hide Parse, Tag, LinesXml, LineSpans, BadLines, Header;
    ReadHeader(LinesXml(text, spans, 0) + (Tag("/w:body") + Tag("/w:document")), START);
    ReadLines(text, spans, 0, START);
    assert [] + LineSpans(text, spans, 0) == LineSpans(text, spans, 0);
  }

  /** Saving "a<" makes a file that cannot be opened. */
  lemma AngleExample()
    ensures Parse(DocumentXml("a<", []), START) == OutOfRange
  {
    var text: Bytes := "a<";
    hide DocumentXml, Parse;
    assert LineEnd(text, 0) == 2;
    assert RunAt([], 0, 2) == (DEFAULT_STYLE, 2);
    assert text[0..2] == text;
    assert BadRuns(text, [], 0, 2);
    SaveThenOpen(text, []);
  }

  // ----- styles -----

  /** The style of the run that `p` falls in. */
  function RunStyle(spans: seq<TextSpan>, pos: nat, end: nat, p: nat): (s: TextStyle)
    requires pos <= p < end
    decreases end - pos
  {
    var (style, e) := RunAt(spans, pos, end);
    if p < e then style else RunStyle(spans, e, end, p)
  }

  lemma {:induction false} StyleOfRuns(spans: seq<TextSpan>, pos: nat, end: nat, p: nat)
    requires pos <= end
    ensures StyleAt(RunSpans(spans, pos, end), p) ==
            if pos <= p < end then Some(StoredStyle(RunStyle(spans, pos, end, p))) else None
    decreases end - pos
  {
    hide RunAt, StoredStyle;
    if pos < end {
      var (style, e) := RunAt(spans, pos, end);
      StyleOfRuns(spans, e, end, p);
      assert RunSpans(spans, pos, end)[1..] == RunSpans(spans, e, end);
    }
  }

  /** The line that `p` is on, from a line that starts at or before it. */
  function LineStart(text: Bytes, pos: nat, p: nat): (a: nat)
    requires pos <= p < |text| && text[p] != '\n'
    ensures pos <= a <= p < LineEnd(text, a)
    decreases |text| - pos
  {
    var e := LineEnd(text, pos);
    if p < e then pos else LineStart(text, e + 1, p)
  }

  /** Looking a position up in the spans of a line and those after it. */
  lemma LineLookup(text: Bytes, spans: seq<TextSpan>, pos: nat, p: nat)
    requires pos <= |text|
    ensures var e := LineEnd(text, pos);
            StyleAt(LineSpans(text, spans, pos), p) ==
            if pos <= p < e then Some(StoredStyle(RunStyle(spans, pos, e, p)))
            else if e < |text| then StyleAt(LineSpans(text, spans, e + 1), p) else None
  {
    hide RunSpans, RunStyle, StoredStyle, LineEnd;
    var e := LineEnd(text, pos);
    StyleOfRuns(spans, pos, e, p);
    var more := if e < |text| then LineSpans(text, spans, e + 1) else [];
    StyleAtAppend(RunSpans(spans, pos, e), more, p);
  }

  /** The opened document gives each character the style of its run. */
  lemma {:induction false} OpenedStyle(text: Bytes, spans: seq<TextSpan>, pos: nat, p: nat)
    requires pos <= p < |text| && text[p] != '\n'
    ensures var a := LineStart(text, pos, p);
            StyleAt(LineSpans(text, spans, pos), p) == Some(StoredStyle(RunStyle(spans, a, LineEnd(text, a), p)))
    decreases |text| - pos
  {
    hide RunStyle, StoredStyle, LineSpans, LineEnd;
    LineLookup(text, spans, pos, p);
    var e := LineEnd(text, pos);
    if p >= e { OpenedStyle(text, spans, e + 1, p); }
  }

  /** Within a run of disjoint spans the first match stays the same. */
  lemma {:induction false} RunKeepsStyle(spans: seq<TextSpan>, pos: nat, end: nat, p: nat)
    requires pos < end && Disjoint(spans) && StyleAt(spans, pos).Some?
    requires pos <= p < RunAt(spans, pos, end).1
    ensures StyleAt(spans, p) == Some(RunAt(spans, pos, end).0)
    decreases |spans|
  {
    var rest := spans[1..];
    if !spans[0].Has(pos) {
      assert forall i :: 0 <= i < |rest| ==> rest[i] == spans[i + 1];
      assert Disjoint(rest) by {
        forall i, j, q: nat | 0 <= i < j < |rest| && rest[i].Has(q) ensures !rest[j].Has(q) {
          assert spans[i + 1].Has(q);
          assert !spans[j + 1].Has(q);
        }
      }
      RunKeepsStyle(rest, pos, end, p);
      Covered(rest, p);
    }
  }

  predicate Covers(spans: seq<TextSpan>, n: nat) {
    forall p :: 0 <= p < n ==> StyleAt(spans, p).Some?
  }

  lemma {:induction false} RunStyleIsStyle(spans: seq<TextSpan>, pos: nat, end: nat, p: nat)
    requires pos <= p < end && Disjoint(spans) && Covers(spans, end)
    ensures StyleAt(spans, p) == Some(RunStyle(spans, pos, end, p))
    decreases end - pos
  {
    hide RunAt, StyleAt;
    var (style, e) := RunAt(spans, pos, end);
    assert StyleAt(spans, pos).Some?;
    if p < e {
      RunKeepsStyle(spans, pos, end, p);
    } else {
      RunStyleIsStyle(spans, e, end, p);
    }
  }

  /** With spans that cover the text and do not overlap, every character but the
      newlines keeps its style, provided its size is below 32768. */
  lemma StylesSurvive(text: Bytes, spans: seq<TextSpan>, p: nat)
    requires Disjoint(spans) && Covers(spans, |text|) && p < |text| && text[p] != '\n'
    ensures StyleAt(spans, p).Some?
    ensures StyleAt(LineSpans(text, spans, 0), p) == StyleAt(spans, p) <==> StyleAt(spans, p).value.size < 32768
  {
    hide LineSpans, RunStyle, StyleAt, Disjoint;
    OpenedStyle(text, spans, 0, p);
    var a := LineStart(text, 0, p);
    RunStyleIsStyle(spans, a, LineEnd(text, a), p);
  }

  /** A size of 32768 points comes back as 0. */
  lemma TallExample()
    ensures var spans := [TextSpan(0, 1, TextStyle(false, false, 32768))];
            StyleAt(LineSpans("a", spans, 0), 0) == Some(TextStyle(false, false, 0))
  {
    var text: Bytes, style := "a", TextStyle(false, false, 32768);
    var spans := [TextSpan(0, 1, style)];
    assert LineEnd(text, 0) == 1;
    assert RunStyle(spans, 0, 1, 0) == style;
    OpenedStyle(text, spans, 0, 0);
  }

  predicate LargeRunAt(spans: seq<TextSpan>, pos: nat, end: nat, p: nat) {
    pos <= p < end && RunStyle(spans, pos, end, p).size >= 0x8000
  }

  lemma {:induction false} LargeRunsExactly(spans: seq<TextSpan>, pos: nat, end: nat)
    requires pos <= end
    ensures LargeRuns(spans, pos, end) <==> exists p: nat :: LargeRunAt(spans, pos, end, p)
    decreases end - pos
  {
    hide RunAt;
    if pos < end {
      var (style, e) := RunAt(spans, pos, end);
      LargeRunsExactly(spans, e, end);
      if style.size >= 0x8000 {
        assert LargeRunAt(spans, pos, end, pos);
      } else if LargeRuns(spans, e, end) {
        var p: nat :| LargeRunAt(spans, e, end, p);
        assert LargeRunAt(spans, pos, end, p);
      } else {
        forall p: nat ensures !LargeRunAt(spans, pos, end, p) {
          assert p >= e ==> !LargeRunAt(spans, e, end, p);
        }
      }
    }
  }

  predicate LargeAt(text: Bytes, spans: seq<TextSpan>, p: nat) {
    p < |text| && text[p] != '\n' && StyleAt(spans, p).Some? && StyleAt(spans, p).value.size >= 0x8000
  }

  /** A build that checks for overflow saves a document exactly when every style of it
      would survive. */
  lemma {:induction false} LargeExactly(text: Bytes, spans: seq<TextSpan>, pos: nat)
    requires Disjoint(spans) && Covers(spans, |text|) && pos <= |text|
    ensures LargeLines(text, spans, pos) <==> exists p: nat :: pos <= p && LargeAt(text, spans, p)
    decreases |text| - pos
  {
    hide StyleAt, Disjoint, RunStyle, LargeRuns, LineEnd;
    var e := LineEnd(text, pos);
    LargeRunsExactly(spans, pos, e);
    forall p: nat | pos <= p < e ensures LargeAt(text, spans, p) <==> LargeRunAt(spans, pos, e, p) {
      RunStyleIsStyle(spans, pos, e, p);
    }
    if e < |text| { LargeExactly(text, spans, e + 1); }
    if LargeRuns(spans, pos, e) {
      var p: nat :| LargeRunAt(spans, pos, e, p);
      assert pos <= p && LargeAt(text, spans, p);
    } else if LargeLines(text, spans, pos) {
      var p: nat :| e + 1 <= p && LargeAt(text, spans, p);
      assert pos <= p && LargeAt(text, spans, p);
    } else {
      forall p: nat | pos <= p ensures !LargeAt(text, spans, p) {
        if p < e {
          assert !LargeRunAt(spans, pos, e, p);
        } else if p > e && e < |text| {
          assert !(e + 1 <= p && LargeAt(text, spans, p));
        }
      }
    }
  }
}
