/** Saving and opening as the word processor's loops do them. */
module DocxCode {
  import opened Basics
  import opened Spans
  import opened DocxText

  // ----- saving -----

  function Pow10(n: nat): (p: nat)
  {
    if n == 0 then 1 else 10 * Pow10(n - 1)
  }

  method U16ToStr(val0: nat) returns (s: Bytes)
    requires val0 <= 0xFFFF
    ensures s == Digits(val0)
  {
    if val0 == 0 {
      assert Digits(0) == [Digit(0)] && Digit(0) == '0';
      return ['0'];
    }
    var buf := new Byte[10](_ => 0 as char);
    var i := 10;
    var val: nat := val0;
    assert Pow10(5) == 100000;
    assert Digits(val0) + [] == Digits(val0);
    while val > 0
      invariant 5 <= i <= 10 && val < Pow10(i - 5)
      invariant val > 0 ==> Digits(val0) == Digits(val) + buf[i..]
      invariant val == 0 ==> Digits(val0) == buf[i..]
    {
      ghost var tail := buf[i..];
      i := i - 1;
      buf[i] := Digit(val % 10);
      assert buf[i..] == [Digit(val % 10)] + tail;
      if val >= 10 { Assoc(Digits(val / 10), [Digit(val % 10)], tail); }
      val := val / 10;
    }
    s := buf[i..];
  }

  method EscapeInto(doc0: Bytes, t: Bytes) returns (doc: Bytes)
    ensures doc == doc0 + Escape(t)
  {
    doc := doc0;
    for i := 0 to |t|
      invariant doc0 + Escape(t) == doc + Escape(t[i..])
    {
      assert t[i..][1..] == t[i + 1..];
      var piece: Bytes;
      if t[i] == '&' {
        piece := "&amp;";
      } else if t[i] == '<' {
        piece := "&lt;";
      } else if t[i] == '>' {
        piece := "&gt;";
      } else {
        piece := [t[i]];
      }
      assert piece == EscapeByte(t[i]);
      Assoc(doc, piece, Escape(t[i + 1..]));
      doc := doc + piece;
    }
    assert t[|t|..] == [];
  }

  /** The style and the end of the run at `pos`: the first span that has it. */
  method FindRun(spans: seq<TextSpan>, pos: nat, lineEnd: nat) returns (style: TextStyle, spanEnd: nat)
    requires pos < lineEnd
    ensures (style, spanEnd) == RunAt(spans, pos, lineEnd)
  {
    style := DEFAULT_STYLE;
    spanEnd := lineEnd;
    for s := 0 to |spans|
      invariant style == DEFAULT_STYLE && spanEnd == lineEnd
      invariant RunAt(spans, pos, lineEnd) == RunAt(spans[s..], pos, lineEnd)
    {
      assert spans[s..][1..] == spans[s + 1..];
      if pos >= spans[s].start && pos < spans[s].end {
        style := spans[s].style;
        if spans[s].end < spanEnd { spanEnd := spans[s].end; }
        return;
      }
    }
  }

  lemma Assoc5(d: Bytes, a: Bytes, b: Bytes, i: Bytes, z: Bytes, e: Bytes)
    ensures d + (a + (b + (i + (z + e)))) == d + a + b + i + z + e
  {}

  /** The doubled size wraps around, unless the build checks for overflow. */
  method PropsInto(doc0: Bytes, style: TextStyle, checked: bool) returns (ok: bool, doc: Bytes)
    ensures ok <==> !(checked && style.size >= 0x8000)
    ensures ok ==> doc == doc0 + Props(style)
  {
    hide SizeTag, Tag;
    ok := true;
    if !(style.bold || style.italic || style.size != 16) { return ok, doc0; }
    var b: Bytes := if style.bold then Tag("w:b/") else [];
    var i: Bytes := if style.italic then Tag("w:i/") else [];
    ghost var z := if style.size != 16 then Tag(SizeTag(HalfPoints(style.size))) else [];
    doc := doc0 + Tag("w:rPr");
    doc := doc + b;
    doc := doc + i;
    ghost var before := doc;
    if style.size != 16 {
      if checked && style.size * 2 > 0xFFFF { return false, doc; }
      doc := SizeInto(doc, style.size * 2 % 0x1_0000);
    }
    assert doc == before + z;
    doc := doc + Tag("/w:rPr");
    Assoc5(doc0, Tag("w:rPr"), b, i, z, Tag("/w:rPr"));
  }

  method SizeInto(doc0: Bytes, sz: nat) returns (doc: Bytes)
    requires sz <= 0xFFFF
    ensures doc == doc0 + Tag(SizeTag(sz))
  {
    hide Digits;
    doc := doc0 + "<w:sz w:val=\"";
    var num := U16ToStr(sz);
    doc := doc + num;
    doc := doc + "\" />";
  }

  method RunInto(doc0: Bytes, style: TextStyle, t: Bytes, checked: bool) returns (ok: bool, doc: Bytes)
    ensures ok <==> !(checked && style.size >= 0x8000)
    ensures ok ==> doc == doc0 + RunXml(style, t)
  {
    hide Props, Escape, Tag;
    doc := doc0 + Tag("w:r");
    ok, doc := PropsInto(doc, style, checked);
    if !ok { return; }
    doc := doc + Tag(TEXT_TAG);
    doc := EscapeInto(doc, t);
    doc := doc + (Tag("/w:t") + Tag("/w:r"));
    Assoc5(doc0, Tag("w:r"), Props(style), Tag(TEXT_TAG), Escape(t), Tag("/w:t") + Tag("/w:r"));
  }

  method ParagraphInto(doc0: Bytes, text: Bytes, spans: seq<TextSpan>, lineStart: nat, lineEnd: nat, checked: bool)
    returns (ok: bool, doc: Bytes)
    requires lineStart <= lineEnd <= |text|
    ensures ok <==> !(checked && LargeRuns(spans, lineStart, lineEnd))
    ensures ok ==> doc == doc0 + ParagraphXml(text, spans, lineStart, lineEnd)
  {
    hide RunXml, RunAt, Tag;
    ok := true;
    doc := doc0 + Tag("w:p");
    ghost var runs := RunsXml(text, spans, lineStart, lineEnd);
    var pos := lineStart;
    while pos < lineEnd
      invariant lineStart <= pos <= lineEnd
      invariant doc0 + Tag("w:p") + runs == doc + RunsXml(text, spans, pos, lineEnd)
      invariant checked ==> (LargeRuns(spans, lineStart, lineEnd) <==> LargeRuns(spans, pos, lineEnd))
    {
      var style, spanEnd := FindRun(spans, pos, lineEnd);
      Assoc(doc, RunXml(style, text[pos..spanEnd]), RunsXml(text, spans, spanEnd, lineEnd));
      ok, doc := RunInto(doc, style, text[pos..spanEnd], checked);
      if !ok { return; }
      pos := spanEnd;
    }
    assert doc + [] == doc;
    doc := doc + Tag("/w:p");
    Assoc(doc0, Tag("w:p"), runs + Tag("/w:p"));
    Assoc(doc0 + Tag("w:p"), runs, Tag("/w:p"));
  }

  ghost function LinesLeft(text: Bytes, spans: seq<TextSpan>, pos: nat): (x: Bytes) {
    if pos <= |text| then LinesXml(text, spans, pos) else []
  }

  ghost predicate LargeLeft(text: Bytes, spans: seq<TextSpan>, pos: nat) {
    pos <= |text| && LargeLines(text, spans, pos)
  }

  /** One more paragraph. */
  lemma LinesStep(text: Bytes, spans: seq<TextSpan>, pos: nat, e: nat)
    requires pos <= |text| && e == LineEnd(text, pos)
    ensures LinesLeft(text, spans, pos) == ParagraphXml(text, spans, pos, e) + LinesLeft(text, spans, e + 1)
  {
    hide ParagraphXml, LineEnd;
  }

  lemma LargeStep(text: Bytes, spans: seq<TextSpan>, pos: nat, e: nat)
    requires pos <= |text| && e == LineEnd(text, pos)
    ensures LargeLeft(text, spans, pos) <==> LargeRuns(spans, pos, e) || LargeLeft(text, spans, e + 1)
  {
    hide LineEnd, LargeRuns;
  }

  lemma LineEndsAt(text: Bytes, pos: nat, i: nat)
    requires pos <= i <= |text| && LineEnd(text, pos) >= i
    ensures i == |text| || text[i] == '\n' ==> LineEnd(text, pos) == i
    ensures !(i == |text| || text[i] == '\n') ==> LineEnd(text, pos) > i
  {
    hide LineEnd;
  }

  /** Writes the document; a build that checks for overflow stops at a run whose size is too
      large to be doubled. */
  method GenerateXml(text: Bytes, spans: seq<TextSpan>, checked: bool) returns (ok: bool, doc: Bytes)
    ensures ok <==> !(checked && LargeLines(text, spans, 0))
    ensures ok ==> doc == DocumentXml(text, spans)
  {
    hide ParagraphXml, Header, Tag, LineEnd, LinesXml, LargeRuns, LargeLines, LinesLeft, LargeLeft;
    ok := true;
    doc := Header();
    var lineStart := 0;
    FromTheStart(text, spans);
    for i := 0 to |text| + 1
      invariant lineStart <= i && (lineStart <= |text| <==> i <= |text|)
      invariant lineStart <= |text| ==> LineEnd(text, lineStart) >= i
      invariant Header() + LinesXml(text, spans, 0) == doc + LinesLeft(text, spans, lineStart)
      invariant checked ==> (LargeLines(text, spans, 0) <==> LargeLeft(text, spans, lineStart))
    {
      LineEndsAt(text, lineStart, i);
      if i == |text| || text[i] == '\n' {
        LinesStep(text, spans, lineStart, i);
        LargeStep(text, spans, lineStart, i);
        Assoc(doc, ParagraphXml(text, spans, lineStart, i), LinesLeft(text, spans, i + 1));
        ok, doc := ParagraphInto(doc, text, spans, lineStart, i, checked);
        if !ok { return; }
        lineStart := i + 1;
      }
    }
    PastTheEnd(text, spans, lineStart);
    assert doc + [] == doc;
    Assoc(Header(), LinesXml(text, spans, 0), Tag("/w:body") + Tag("/w:document"));
    doc := doc + (Tag("/w:body") + Tag("/w:document"));
  }

  lemma FromTheStart(text: Bytes, spans: seq<TextSpan>)
    ensures LinesLeft(text, spans, 0) == LinesXml(text, spans, 0)
    ensures LargeLeft(text, spans, 0) <==> LargeLines(text, spans, 0)
  {}

  lemma PastTheEnd(text: Bytes, spans: seq<TextSpan>, pos: nat)
    requires pos > |text|
    ensures LinesLeft(text, spans, pos) == [] && !LargeLeft(text, spans, pos)
  {}

  // ----- opening -----

  method FindTagEnd(xml: Bytes, i: nat) returns (e: nat)
    requires i <= |xml|
    ensures e == i + TagEnd(xml[i..])
  {
    e := i;
    while e < |xml| && xml[e] != '>'
      invariant i <= e <= |xml| && TagEnd(xml[i..]) == (e - i) + TagEnd(xml[e..])
    {
      assert xml[e..][1..] == xml[e + 1..];
      e := e + 1;
    }
  }

  datatype Search = Found(at: nat) | Missing | PastEnd

  /** Looks for the closing tag; the six-byte slice runs past the end when only
      five bytes are left. */
  method FindClose(xml: Bytes, start: nat) returns (r: Search)
    requires start <= |xml|
    ensures match CloseAt(xml[start..])
            case Some(k) => r == Found(start + k)
            case None => r == if |xml| - start >= 5 then PastEnd else Missing
  {
    var e := start;
    while e + 5 <= |xml|
      invariant start <= e <= |xml| && (e == start || e + 5 <= |xml|)
      invariant CloseAt(xml[start..]) == match CloseAt(xml[e..]) case Some(k) => Some(k + (e - start)) case None => None
    {
      if e + 6 > |xml| { return PastEnd; }
      assert xml[e..][..6] == xml[e..e + 6];
      if xml[e..e + 6] == "</w:t>" { return Found(e); }
      assert xml[e..][1..] == xml[e + 1..];
      e := e + 1;
    }
    r := Missing;
  }

  method UnescapeText(raw: Bytes) returns (r: Option<Bytes>)
    ensures r == Unescape(raw)
  {
    var out: Bytes := [];
    var ti := 0;
    assert raw[0..] == raw && (Unescape(raw).Some? ==> [] + Unescape(raw).value == Unescape(raw).value);
    while ti < |raw|
      invariant 0 <= ti <= |raw|
      invariant Unescape(raw) == Joined(out, Unescape(raw[ti..]))
    {
      ghost var x := raw[ti..];
      assert forall k :: 0 <= k <= |x| ==> x[k..] == raw[ti + k..];
      if raw[ti] == '&' {
        if ti + 4 == |raw| || ti + 3 == |raw| { return None; }
        if ti + 4 <= |raw| && raw[ti..ti + 5] == "&amp;" {
          assert x[..5] == raw[ti..ti + 5];
          out := Emit(out, '&', raw[ti + 5..]);
          ti := ti + 5;
        } else if ti + 3 <= |raw| && raw[ti..ti + 4] == "&lt;" {
          assert x[..4] == raw[ti..ti + 4] && x[..5] != "&amp;";
          out := Emit(out, '<', raw[ti + 4..]);
          ti := ti + 4;
        } else if ti + 3 <= |raw| && raw[ti..ti + 4] == "&gt;" {
          assert x[..4] == raw[ti..ti + 4] && x[..5] != "&amp;";
          out := Emit(out, '>', raw[ti + 4..]);
          ti := ti + 4;
        } else {
          if |x| >= 5 { assert x[..4] == raw[ti..ti + 4] && x[..5] == raw[ti..ti + 5]; }
          out := Emit(out, raw[ti], raw[ti + 1..]);
          ti := ti + 1;
        }
      } else {
        out := Emit(out, raw[ti], raw[ti + 1..]);
        ti := ti + 1;
      }
    }
    assert raw[|raw|..] == [] && out + [] == out;
    r := Some(out);
  }

  function Joined(a: Bytes, r: Option<Bytes>): (q: Option<Bytes>) {
    if r.Some? then Some(a + r.value) else None
  }

  method Emit(out: Bytes, b: Byte, ghost rest: Bytes) returns (r: Bytes)
    ensures r == out + [b]
    ensures Joined(out, Prepend(b, Unescape(rest))) == Joined(r, Unescape(rest))
  {
    r := out + [b];
    if Unescape(rest).Some? { assert out + ([b] + Unescape(rest).value) == r + Unescape(rest).value; }
  }

  method ReadDigits(tag: Bytes, start: nat) returns (end: nat)
    requires start <= |tag|
    ensures end == start + DigitRun(tag[start..])
  {
    end := start;
    while end < |tag| && '0' <= tag[end] <= '9'
      invariant start <= end <= |tag| && DigitRun(tag[start..]) == (end - start) + DigitRun(tag[end..])
    {
      assert tag[end..][1..] == tag[end + 1..];
      end := end + 1;
    }
  }

  method ReadSizeValue(tag: Bytes) returns (r: Option<nat>)
    ensures r == SizeValue(tag)
  {
    hide DigitRun, Decimal;
    for idx := 0 to |tag|
      invariant SizeValue(tag) == SizeValue(tag[idx..])
    {
      assert tag[idx..][1..] == tag[idx + 1..];
      if StartsWith(tag[idx..], "w:val=\"") {
        var start := idx + 7;
        assert tag[idx..][7..] == tag[start..];
        var end := ReadDigits(tag, start);
        assert tag[start..][..end - start] == tag[start..end];
        return ParseU16(tag[start..end]);
      }
    }
    assert tag[|tag|..] == [];
    r := None;
  }

  /** What a text element with content `rest` does. */
  method ReadTextElement(xml: Bytes, start: nat, st: State) returns (ok: bool, st': State, i': nat)
    requires start <= |xml|
    ensures ok ==> start <= i' <= |xml|
    ensures var rest := xml[start..];
            match CloseAt(rest)
            case Some(k) =>
              (match Unescape(rest[..k])
               case Some(t) => ok && xml[i'..] == rest[k + 6..] && st' == AddText(t, st)
               case None => !ok)
            case None => if |rest| >= 5 then !ok else ok && i' == start && st' == st
  {
    hide CloseAt, Unescape;
    var close := FindClose(xml, start);
    match close
    case PastEnd => return false, st, start;
    case Missing => return true, st, start;
    case Found(textEnd) =>
      assert xml[start..textEnd] == xml[start..][..textEnd - start];
      assert xml[textEnd + 6..] == xml[start..][textEnd - start + 6..];
      var t := UnescapeText(xml[start..textEnd]);
      if t.None? { return false, st, start; }
      return true, AddText(t.value, st), textEnd + 6;
  }

  /** One turn of the reader at a `<`. */
  method ReadElement(xml: Bytes, i: nat, st: State) returns (ok: bool, st': State, i': nat)
    requires i < |xml| && xml[i] == '<'
    ensures ok ==> i < i' <= |xml| && Parse(xml[i..], st) == Parse(xml[i'..], st')
    ensures !ok ==> Parse(xml[i..], st) == OutOfRange
  {
    hide CloseAt, Unescape, ApplyTag, AddText, TagEnd;
    var endTag := FindTagEnd(xml, i);
    if endTag >= |xml| {
      assert xml[|xml|..] == [];
      return true, st, |xml|;
    }
    var tag := xml[i + 1..endTag];
    assert tag == xml[i..][1..endTag - i];
    assert xml[endTag + 1..] == xml[i..][endTag - i + 1..];
    if IsText(tag) {
      ok, st', i' := ReadTextElement(xml, endTag + 1, st);
      return;
    }
    st' := UpdateStyle(tag, st);
    return true, st', endTag + 1;
  }

  method UpdateStyle(tag: Bytes, st: State) returns (st': State)
    ensures st' == ApplyTag(tag, st)
  {
    hide SizeValue;
    st' := st;
    if tag == "w:p" {
    } else if tag == "/w:p" {
      st' := st.(text := st.text + "\n");
    } else if tag == "w:r" {
      st' := st.(bold := false, italic := false, size := 16);
    } else if tag == "w:b/" || StartsWith(tag, "w:b ") {
      st' := st.(bold := true);
    } else if tag == "w:i/" || StartsWith(tag, "w:i ") {
      st' := st.(italic := true);
    } else if StartsWith(tag, "w:sz ") {
      var v := ReadSizeValue(tag);
      if v.Some? { st' := st.(size := v.value / 2); }
    }
  }

  method ParseXml(xml: Bytes) returns (r: Outcome)
    ensures r == Parse(xml, START)
  {
    hide TagEnd, CloseAt, Unescape, ApplyTag;
    var st := START;
    var i := 0;
    while i < |xml|
      invariant 0 <= i <= |xml| && Parse(xml, START) == Parse(xml[i..], st)
    {
      if xml[i] == '<' {
        var ok;
        ok, st, i := ReadElement(xml, i, st);
        if !ok { return OutOfRange; }
      } else {
        assert xml[i..][1..] == xml[i + 1..];
        i := i + 1;
      }
    }
    r := Opened(st.text, st.spans);
  }
}
