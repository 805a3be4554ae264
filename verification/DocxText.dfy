/** The document text of the word processor as XML: what saving writes for a text
    with style spans, and what opening reads from any XML. */
module DocxText {
  import opened Basics
  import opened Spans

  /** Bytes are written as the characters U+0000 to U+00FF. */
  type Byte = c: char | c as int < 256
  type Bytes = seq<Byte>

  // ----- writing -----

  const XML_TAG: Bytes := "?xml version=\"1.0\" " + "encoding=\"UTF-8\" " + "standalone=\"yes\"?"
  const DOC_TAG: Bytes :=
    "w:document xmlns:w=\"" + "http://schemas." + "openxmlformats.org/" + "wordprocessingml/" + "2006/main\""
  const TEXT_TAG: Bytes := "w:t xml:space=\"preserve\""

  function Tag(t: Bytes): (x: Bytes) { "<" + t + ">" }

  function Header(): (x: Bytes) {
    Tag(XML_TAG) + "\n" + Tag(DOC_TAG) + "\n  " + Tag("w:body")
  }

  function EscapeByte(b: Byte): (x: Bytes)
    ensures |x| >= 1
  {
    if b == '&' then "&amp;" else if b == '<' then "&lt;" else if b == '>' then "&gt;" else [b]
  }

  function Escape(t: Bytes): (x: Bytes)
    ensures t != [] ==> x != []
  {
    if t == [] then [] else EscapeByte(t[0]) + Escape(t[1..])
  }

  function Digit(n: nat): (c: Byte)
    requires n < 10
    ensures '0' <= c <= '9'
  {
    n as char + '0'
  }

  function Digits(n: nat): (x: Bytes)
    ensures |x| >= 1 && forall c :: c in x ==> '0' <= c <= '9'
  {
    if n < 10 then [Digit(n)] else Digits(n / 10) + [Digit(n % 10)]
  }

  function SizeTag(n: nat): (x: Bytes) {
    "w:sz " + ("w:val=\"" + (Digits(n) + "\" /"))
  }

  /** The size attribute counts half points in 16 bits. */
  function HalfPoints(size: nat): (n: nat) { size * 2 % 0x1_0000 }

  function Props(s: TextStyle): (x: Bytes) {
    if s.bold || s.italic || s.size != 16 then
      Tag("w:rPr") + ((if s.bold then Tag("w:b/") else []) + ((if s.italic then Tag("w:i/") else [])
      + ((if s.size != 16 then Tag(SizeTag(HalfPoints(s.size))) else []) + Tag("/w:rPr"))))
    else []
  }

  function RunXml(s: TextStyle, t: Bytes): (x: Bytes) {
    Tag("w:r") + (Props(s) + (Tag(TEXT_TAG) + (Escape(t) + (Tag("/w:t") + Tag("/w:r")))))
  }

  /** The style at `pos` by the first span that has it, and where that run ends. */
  function RunAt(spans: seq<TextSpan>, pos: nat, end: nat): (r: (TextStyle, nat))
    requires pos < end
    ensures pos < r.1 <= end
  {
    if spans == [] then (DEFAULT_STYLE, end)
    else if spans[0].Has(pos) then (spans[0].style, if end <= spans[0].end then end else spans[0].end)
    else RunAt(spans[1..], pos, end)
  }

  function RunsXml(text: Bytes, spans: seq<TextSpan>, pos: nat, end: nat): (x: Bytes)
    requires pos <= end <= |text|
    decreases end - pos
  {
    if pos == end then []
    else
      var (style, e) := RunAt(spans, pos, end);
      RunXml(style, text[pos..e]) + RunsXml(text, spans, e, end)
  }

  /** Where the line that starts at `pos` ends. */
  function LineEnd(text: Bytes, pos: nat): (e: nat)
    requires pos <= |text|
    ensures pos <= e <= |text| && (e < |text| ==> text[e] == '\n')
    ensures forall i :: pos <= i < e ==> text[i] != '\n'
    decreases |text| - pos
  {
    if pos == |text| || text[pos] == '\n' then pos else LineEnd(text, pos + 1)
  }

  function ParagraphXml(text: Bytes, spans: seq<TextSpan>, pos: nat, end: nat): (x: Bytes)
    requires pos <= end <= |text|
  {
    Tag("w:p") + (RunsXml(text, spans, pos, end) + Tag("/w:p"))
  }

  function LinesXml(text: Bytes, spans: seq<TextSpan>, pos: nat): (x: Bytes)
    requires pos <= |text|
    decreases |text| - pos
  {
    var e := LineEnd(text, pos);
    ParagraphXml(text, spans, pos, e) + if e < |text| then LinesXml(text, spans, e + 1) else []
  }

  /** Some run on the way from `pos` has a size that does not fit 16 bits when doubled. */
  predicate LargeRuns(spans: seq<TextSpan>, pos: nat, end: nat)
    requires pos <= end
    decreases end - pos
  {
    pos < end && var (style, e) := RunAt(spans, pos, end); style.size >= 0x8000 || LargeRuns(spans, e, end)
  }

  predicate LargeLines(text: Bytes, spans: seq<TextSpan>, pos: nat)
    requires pos <= |text|
    decreases |text| - pos
  {
    var e := LineEnd(text, pos);
    LargeRuns(spans, pos, e) || (e < |text| && LargeLines(text, spans, e + 1))
  }

  function DocumentXml(text: Bytes, spans: seq<TextSpan>): (x: Bytes) {
    Header() + (LinesXml(text, spans, 0) + (Tag("/w:body") + Tag("/w:document")))
  }

  // ----- reading -----

  datatype State = State(bold: bool, italic: bool, size: nat, text: Bytes, spans: seq<TextSpan>)

  /** Opening ends with a text and spans, or with a slice past the end. */
  datatype Outcome = Opened(text: Bytes, spans: seq<TextSpan>) | OutOfRange

  /** The first `>`, or the length. */
  function TagEnd(x: Bytes): (e: nat)
    ensures e <= |x| && (e < |x| ==> x[e] == '>')
    ensures forall i :: 0 <= i < e ==> x[i] != '>'
  {
    if x == [] || x[0] == '>' then 0 else 1 + TagEnd(x[1..])
  }

  /** Where the text element closes. */
  function CloseAt(x: Bytes): (r: Option<nat>)
    ensures r.Some? ==> r.value + 6 <= |x|
  {
    if |x| < 6 then None
    else if x[..6] == "</w:t>" then Some(0)
    else match CloseAt(x[1..])
      case Some(k) => Some(k + 1)
      case None => None
  }

  function Prepend(b: Byte, r: Option<Bytes>): (q: Option<Bytes>) {
    if r.Some? then Some([b] + r.value) else None
  }

  /** Undoes the escapes. The test for "&amp;" slices five bytes when only four
      may be left, and the other tests four when only three may be. */
  function Unescape(x: Bytes): (r: Option<Bytes>)
    decreases |x|
  {
    if x == [] then Some([])
    else if x[0] != '&' then Prepend(x[0], Unescape(x[1..]))
    else if |x| == 4 || |x| == 3 then None
    else if |x| >= 5 && x[..5] == "&amp;" then Prepend('&', Unescape(x[5..]))
    else if |x| >= 5 && x[..4] == "&lt;" then Prepend('<', Unescape(x[4..]))
    else if |x| >= 5 && x[..4] == "&gt;" then Prepend('>', Unescape(x[4..]))
    else Prepend(x[0], Unescape(x[1..]))
  }

  predicate IsDigit(c: Byte) { '0' <= c <= '9' }

  function DigitRun(x: Bytes): (n: nat)
    ensures n <= |x| && forall i :: 0 <= i < n ==> IsDigit(x[i])
  {
    if x == [] || !IsDigit(x[0]) then 0 else 1 + DigitRun(x[1..])
  }

  function Decimal(x: Bytes): (n: nat)
    requires forall i :: 0 <= i < |x| ==> IsDigit(x[i])
  {
    if x == [] then 0
    else
      assert IsDigit(x[|x| - 1]);
      10 * Decimal(x[..|x| - 1]) + (x[|x| - 1] as int - '0' as int)
  }

  function ParseU16(x: Bytes): (r: Option<nat>)
    requires forall i :: 0 <= i < |x| ==> IsDigit(x[i])
  {
    if x == [] || Decimal(x) > 0xFFFF then None else Some(Decimal(x))
  }

  predicate StartsWith(x: Bytes, p: Bytes) { |p| <= |x| && x[..|p|] == p }

  /** The number after the first `w:val="`. */
  function SizeValue(tag: Bytes): (r: Option<nat>) {
    if tag == [] then None
    else if StartsWith(tag, "w:val=\"") then ParseU16(tag[7..][..DigitRun(tag[7..])])
    else SizeValue(tag[1..])
  }

  /** What a tag other than a text element does. */
  function ApplyTag(tag: Bytes, st: State): (r: State) {
    if tag == "w:p" then st
    else if tag == "/w:p" then st.(text := st.text + "\n")
    else if tag == "w:r" then st.(bold := false, italic := false, size := 16)
    else if tag == "w:b/" || StartsWith(tag, "w:b ") then st.(bold := true)
    else if tag == "w:i/" || StartsWith(tag, "w:i ") then st.(italic := true)
    else if StartsWith(tag, "w:sz ") then
      match SizeValue(tag)
      case Some(v) => st.(size := v / 2)
      case None => st
    else st
  }

  predicate IsText(tag: Bytes) { StartsWith(tag, "w:t") }

  /** A run of text joins the document with a span of its own. */
  function AddText(t: Bytes, st: State): (r: State) {
    if t == [] then st
    else st.(text := st.text + t,
             spans := st.spans + [TextSpan(|st.text|, |st.text| + |t|, TextStyle(st.bold, st.italic, st.size))])
  }

  function Parse(x: Bytes, st: State): (r: Outcome)
    decreases |x|
  {
    if x == [] then Opened(st.text, st.spans)
    else if x[0] != '<' then Parse(x[1..], st)
    else
      var e := TagEnd(x);
      if e == |x| then Opened(st.text, st.spans)
      else
        var tag, rest := x[1..e], x[e + 1..];
        if !IsText(tag) then Parse(rest, ApplyTag(tag, st))
        else match CloseAt(rest)
          case Some(k) =>
            (match Unescape(rest[..k])
             case Some(t) => Parse(rest[k + 6..], AddText(t, st))
             case None => OutOfRange)
          case None => if |rest| >= 5 then OutOfRange else Parse(rest, st)
  }

  const START := State(false, false, 16, [], [])
}
