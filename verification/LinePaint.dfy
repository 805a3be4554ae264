/** The drawing commands of painted lines: what someone who only sees the commands can tell, and
    that it is what the runs say. */
module LinePaint {
  import opened Basics
  import opened LineBreak
  import opened LineFlow

  /** The second command of a bold stroke: the first again, one pixel to the right. */
  predicate Doubles(c: Command, d: Command) { d == Text(c.x + 1, c.y, c.text, c.color, c.scale) }

  /** What commands show: a command that is doubled is a bold stroke, any other a plain one. */
  function Seen(cs: seq<Command>): (ss: seq<Stroke>)
    decreases |cs|
  {
    if cs == [] then []
    else
      var c := cs[0];
      var bold := |cs| > 1 && Doubles(c, cs[1]);
      [Stroke(c.x, c.y, c.text, Style(c.color, c.scale, bold))] + Seen(cs[if bold then 2 else 1..])
  }

  /** No stroke starts one pixel to the right of the one before it. */
  ghost predicate Apart(ss: seq<Stroke>) {
    forall i :: 0 < i < |ss| ==> ss[i].x != ss[i - 1].x + 1 || ss[i].y != ss[i - 1].y
  }

  function FirstOf(s: Stroke): (c: Command) { Text(s.x, s.y, s.text, s.style.color, s.style.scale) }

  function SecondOf(s: Stroke): (c: Command) { Text(s.x + 1, s.y, s.text, s.style.color, s.style.scale) }

  lemma SeenBold(c: Command, d: Command, more: seq<Command>)
    requires Doubles(c, d)
    ensures Seen([c, d] + more) == [Stroke(c.x, c.y, c.text, Style(c.color, c.scale, true))] + Seen(more)
  {
    assert ([c, d] + more)[2..] == more;
  }

  lemma SeenPlain(c: Command, more: seq<Command>)
    requires more == [] || !Doubles(c, more[0])
    ensures Seen([c] + more) == [Stroke(c.x, c.y, c.text, Style(c.color, c.scale, false))] + Seen(more)
  {
    assert ([c] + more)[1..] == more;
  }

  /** The commands of strokes show the strokes: each is drawn once, at its place, with its text,
      colour and scale, and once more exactly if it is bold. */
  lemma {:induction false} CommandsShow(ss: seq<Stroke>)
    requires Apart(ss)
    ensures Seen(Commands(ss)) == ss
    decreases |ss|
  {
    hide Seen, Commands, Apart;
    if ss == [] {
      NothingSeen();
    } else {
      var s, rest := ss[0], ss[1..];
      ApartRest(ss);
      CommandsShow(rest);
      FirstCommand(rest);
      CommandsFirst(ss);
      var c, more := FirstOf(s), Commands(rest);
      if s.style.bold { SeenBold(c, SecondOf(s), more); } else { SeenPlain(c, more); }
      assert ss == [s] + rest;
    }
  }

  lemma NothingSeen()
    ensures Seen([]) == [] && Commands([]) == []
  {}

  lemma CommandsFirst(ss: seq<Stroke>)
    requires ss != []
    ensures Commands(ss) == (if ss[0].style.bold then [FirstOf(ss[0]), SecondOf(ss[0])] else [FirstOf(ss[0])])
                            + Commands(ss[1..])
  {
    var a, b, more := [FirstOf(ss[0])], [SecondOf(ss[0])], Commands(ss[1..]);
    if ss[0].style.bold {
      assert Commands(ss) == a + b + more;
      assert a + b == [FirstOf(ss[0]), SecondOf(ss[0])];
    } else {
      assert Commands(ss) == a + [] + more;
      assert a + [] == a;
    }
  }

  lemma ApartRest(ss: seq<Stroke>)
    requires Apart(ss) && ss != []
    ensures Apart(ss[1..]) && (|ss| > 1 ==> ss[1..][0].x != ss[0].x + 1 || ss[1..][0].y != ss[0].y)
  {
    var rest := ss[1..];
    assert forall i :: 0 < i < |rest| ==> rest[i] == ss[i + 1] && rest[i - 1] == ss[i];
  }

  lemma FirstCommand(ss: seq<Stroke>)
    ensures Commands(ss) == [] <==> ss == []
    ensures ss != [] ==> Commands(ss)[0].x == ss[0].x && Commands(ss)[0].y == ss[0].y
  {}

  // ----- strokes of painted lines -----

  ghost predicate AllAt(ss: seq<Stroke>, y: int) { forall s :: s in ss ==> s.y == y }

  lemma {:induction false} LineApart(ps: seq<Piece>, indent: int, x: int, y: int)
    ensures var ss := PaintFrom(ps, indent, x, y); Apart(ss) && AllAt(ss, y) && (ss != [] ==> ss[0].x == x)
    decreases |ps|
  {
    hide TrimStart, PaintFrom, TextWidth, Apart, AllAt;
    if ps == [] {
      NoStroke(indent, x, y);
      NothingApart(y);
    } else {
      var t := if x == indent then TrimStart(ps[0].text) else ps[0].text;
      PaintFirst(ps, indent, x, y);
      if t == "" {
        LineApart(ps[1..], indent, x, y);
      } else {
        var w := TextWidth(|t|, ps[0].style);
        LineApart(ps[1..], indent, x + w, y);
        Eights(|t|, ps[0].style);
        ApartMore(Stroke(x, y, t, ps[0].style), PaintFrom(ps[1..], indent, x + w, y));
      }
    }
  }

  lemma NothingApart(y: int)
    ensures Apart([]) && AllAt([], y)
  {}

  lemma ApartMore(s: Stroke, ss: seq<Stroke>)
    requires Apart(ss) && AllAt(ss, s.y) && (ss != [] ==> ss[0].x != s.x + 1)
    ensures Apart([s] + ss) && AllAt([s] + ss, s.y)
  {
    var all := [s] + ss;
    forall i | 0 < i < |all| ensures all[i].x != all[i - 1].x + 1 || all[i].y != all[i - 1].y {
      if i > 1 { assert all[i] == ss[i - 1] && all[i - 1] == ss[i - 2]; }
    }
  }

  /** Widths are multiples of eight. */
  lemma Eights(n: nat, s: Style)
    ensures TextWidth(n, s) == 8 * (n * s.scale)
  {}

  lemma ApartJoin(a: seq<Stroke>, b: seq<Stroke>)
    requires Apart(a) && Apart(b) && (a != [] && b != [] ==> b[0].y != a[|a| - 1].y)
    ensures Apart(a + b)
  {
    forall i | 0 < i < |a + b|
      ensures (a + b)[i].x != (a + b)[i - 1].x + 1 || (a + b)[i].y != (a + b)[i - 1].y
    {
      if i > |a| {
        assert (a + b)[i] == b[i - |a|] && (a + b)[i - 1] == b[i - |a| - 1];
      }
    }
  }

  ghost predicate AllAbove(ss: seq<Stroke>, y: int) { forall s :: s in ss ==> s.y < y }

  lemma {:induction false} PaintApart(ls: seq<Line>, indent: int, y: int)
    ensures Apart(Paint(ls, indent, y)) && AllAbove(Paint(ls, indent, y), Below(ls, y))
    decreases |ls|
  {
    hide PaintFrom, Apart, AllAt;
    if ls == [] {
      NothingApart(y);
    } else {
      var n := |ls| - 1;
      var top := Below(ls[..n], y);
      var a, b := Paint(ls[..n], indent, y), PaintFrom(ls[n].pieces, indent, indent, top);
      PaintApart(ls[..n], indent, y);
      LineApart(ls[n].pieces, indent, indent, top);
      AboveAndAt(a, b, top, ls[n].height + 2);
      ApartJoin(a, b);
    }
  }

  lemma AboveAndAt(a: seq<Stroke>, b: seq<Stroke>, top: int, h: nat)
    requires AllAbove(a, top) && AllAt(b, top) && h > 0
    ensures AllAbove(a + b, top + h) && (a != [] && b != [] ==> b[0].y != a[|a| - 1].y)
  {
    if a != [] && b != [] { assert a[|a| - 1] in a && b[0] in b; }
  }

  // ----- one line -----

  function PieceText(ps: seq<Piece>): (t: string) {
    if ps == [] then "" else ps[0].text + PieceText(ps[1..])
  }

  function StrokeText(ss: seq<Stroke>): (t: string) {
    if ss == [] then "" else ss[0].text + StrokeText(ss[1..])
  }

  lemma {:induction false} TrimJoin(a: string, b: string)
    ensures TrimStart(a + b) == if TrimStart(a) == "" then TrimStart(b) else TrimStart(a) + b
    decreases |a|
  {
    if a == "" {
      assert a + b == b;
    } else {
      assert (a + b)[1..] == a[1..] + b;
      if White(a[0]) { TrimJoin(a[1..], b); }
    }
  }

  /** Each stroke starts where the one before it ends, the first at a given place. */
  ghost predicate InRow(ss: seq<Stroke>, x: int) {
    && (ss != [] ==> ss[0].x == x)
    && forall i :: 0 < i < |ss| ==> ss[i].x == ss[i - 1].x + 8 * (|ss[i - 1].text| * ss[i - 1].style.scale)
  }

  /** A line shows the whole text of its pieces, from the indent on and without a gap, but for the
      white space at its start. */
  lemma {:induction false} LineShowsText(ps: seq<Piece>, indent: int, x: int, y: int)
    requires x >= indent && forall p :: p in ps ==> p.style.scale > 0
    ensures var ss := PaintFrom(ps, indent, x, y);
            && StrokeText(ss) == (if x == indent then TrimStart(PieceText(ps)) else PieceText(ps))
            && InRow(ss, x)
    decreases |ps|
  {
    hide TrimStart, PaintFrom, TextWidth, InRow;
    if ps == [] {
      NoStroke(indent, x, y);
      NothingTrimmed(x);
    } else {
      var p, rest := ps[0], ps[1..];
      var t := if x == indent then TrimStart(p.text) else p.text;
      PaintFirst(ps, indent, x, y);
      TrimJoin(p.text, PieceText(rest));
      assert p in ps;
      if t == "" {
        LineShowsText(rest, indent, x, y);
        if x != indent { assert p.text + PieceText(rest) == PieceText(rest); }
      } else {
        var w := TextWidth(|t|, p.style);
        Eights(|t|, p.style);
        Positive(|t|, p.style.scale);
        LineShowsText(rest, indent, x + w, y);
        InRowMore(Stroke(x, y, t, p.style), PaintFrom(rest, indent, x + w, y));
      }
    }
  }

  lemma NothingTrimmed(x: int)
    ensures TrimStart("") == "" && InRow([], x) && StrokeText([]) == ""
  {}

  lemma Positive(a: nat, b: nat)
    requires a > 0 && b > 0
    ensures a * b > 0
  {}

  lemma InRowMore(s: Stroke, ss: seq<Stroke>)
    requires InRow(ss, s.x + 8 * (|s.text| * s.style.scale))
    ensures InRow([s] + ss, s.x) && StrokeText([s] + ss) == s.text + StrokeText(ss)
  {
    var all := [s] + ss;
    assert all[1..] == ss;
    forall i | 0 < i < |all| ensures all[i].x == all[i - 1].x + 8 * (|all[i - 1].text| * all[i - 1].style.scale) {
      if i > 1 { assert all[i] == ss[i - 1] && all[i - 1] == ss[i - 2]; }
    }
  }

  // ----- commands within the page -----

  /** A command that stays between the margins, a pixel over for bold text, and between two heights. */
  ghost predicate Drawn(c: Command, left: int, right: int, top: int, bottom: int) {
    left <= c.x && c.x + 8 * (|c.text| * c.scale) <= right + 1 && top <= c.y && c.y + 16 * c.scale <= bottom
  }

  lemma {:induction false} CommandsDrawn(ss: seq<Stroke>, left: int, right: int, top: int, bottom: int)
    requires AllInside(ss, left, right, top, bottom)
    ensures forall c :: c in Commands(ss) ==> Drawn(c, left, right, top, bottom)
    decreases |ss|
  {
    if ss != [] {
      assert Inside(ss[0], left, right, top, bottom);
      Eights(|ss[0].text|, ss[0].style);
      CommandsDrawn(ss[1..], left, right, top, bottom);
    }
  }

  /** Commands that show the visible characters of runs, in order, each in its colour, scale and weight,
      between the margins and between two heights. */
  ghost predicate Shows(cs: seq<Command>, runs: seq<Run>, left: int, right: int, top: int, bottom: int) {
    StrokeInk(Seen(cs)) == RunInk(runs) && forall c :: c in cs ==> Drawn(c, left, right, top, bottom)
  }

  /** What a flush of runs that fit the width draws: the visible characters of the runs, in order,
      each in its colour, scale and weight, between the margins and on lines below
      one another. */
  lemma FlushDraws(runs: seq<Run>, max: nat, indent: int, y: int)
    requires Room(runs, max)
    ensures var ls := Lines(runs, max);
            Shows(Commands(Paint(ls, indent, y)), runs, indent, indent + max, y, Below(ls, y))
  {
    hide Lines, Paint, Commands, Seen, StrokeInk, RunInk, Below, Drawn, Room, IsLayout;
    var ls := Lines(runs, max);
    LinesAreLayout(runs, max);
    PaintingKeepsText(runs, ls, max, indent, y);
    PaintApart(ls, indent, y);
    CommandsShow(Paint(ls, indent, y));
    AllProperOf(ls, Pieces(runs, max), max);
    PaintingFits(ls, max, indent, y);
    CommandsDrawn(Paint(ls, indent, y), indent, indent + max, y, Below(ls, y));
  }

  lemma AllProperOf(ls: seq<Line>, ps: seq<Piece>, max: nat)
    requires IsLayout(ls, ps, max)
    ensures AllProper(ls, max)
  {}

  /** Blank runs have no visible character. */
  lemma {:induction false} BlankHasNoInk(runs: seq<Run>)
    requires forall r :: r in runs ==> TrimStart(r.text) == ""
    ensures RunInk(runs) == []
    decreases |runs|
  {
    if runs != [] {
      assert runs[0] in runs;
      TrimKeepsGlyphs(runs[0].text, runs[0].style);
      BlankHasNoInk(runs[1..]);
    }
  }

  /** Trimming leaves nothing of a text exactly when all of it is white. */
  lemma {:induction false} TrimmedAway(t: string)
    ensures TrimStart(t) == "" <==> forall c :: c in t ==> White(c)
    decreases |t|
  {
    hide White;
    if t != "" {
      assert t[0] in t;
      if White(t[0]) {
        TrimmedAway(t[1..]);
        assert forall c :: c in t <==> c == t[0] || c in t[1..];
      }
    }
  }

  // ----- what counts as white -----

  /** The white characters of the Unicode Standard; every other character is visible. */
  const WHITE: seq<nat> := [
    0x9, 0xA, 0xB, 0xC, 0xD, 0x20, 0x85, 0xA0, 0x1680, 0x2000, 0x2001, 0x2002, 0x2003, 0x2004, 0x2005, 0x2006,
    0x2007, 0x2008, 0x2009, 0x200A, 0x2028, 0x2029, 0x202F, 0x205F, 0x3000]

  lemma WhiteExactly(c: char)
    ensures White(c) <==> c as int in WHITE
  {
    var n := c as int;
    if 0x9 <= n <= 0xD { assert WHITE[n - 0x9] == n; }
    if 0x2000 <= n <= 0x200A { assert WHITE[n - 0x2000 + 9] == n; }
    assert WHITE[5] == 0x20 && WHITE[6] == 0x85 && WHITE[7] == 0xA0 && WHITE[8] == 0x1680;
    assert WHITE[20] == 0x2028 && WHITE[21] == 0x2029 && WHITE[22] == 0x202F && WHITE[23] == 0x205F;
    assert WHITE[24] == 0x3000;
  }

  // ----- words -----

  predicate IsSeparator(w: string) { w == " " || w == "\t" || w == "\n" || w == "\r" }

  predicate IsPlain(w: string) { w != "" && ' ' !in w && '\t' !in w && '\n' !in w && '\r' !in w }

  /** Every word is one separator or free of them, and words that are not are as long as they can be. */
  ghost predicate AreWords(ws: seq<string>) {
    && (forall w :: w in ws ==> IsSeparator(w) || IsPlain(w))
    && (forall i :: 0 < i < |ws| ==> IsSeparator(ws[i - 1]) || IsSeparator(ws[i]))
  }

  lemma {:induction false} WordsAreWords(s: string)
    ensures AreWords(Words(s)) && Joined(Words(s)) == s
    ensures s != "" ==> (IsSeparator(Words(s)[0]) <==> Separates(s[0]))
    decreases |s|
  {
    WordsJoin(s);
    if s != "" {
      var n := if Separates(s[0]) then 1 else WordLength(s);
      var w, rest := s[..n], Words(s[n..]);
      WordsAreWords(s[n..]);
      assert Words(s) == [w] + rest;
      assert IsSeparator(w) || IsPlain(w) by { OneWord(s, n); }
      assert forall i :: 0 < i < |rest| ==> rest[i] == Words(s)[i + 1];
      forall i | 0 < i < |Words(s)| ensures IsSeparator(Words(s)[i - 1]) || IsSeparator(Words(s)[i]) {
        if i > 1 {
          assert Words(s)[i] == rest[i - 1] && Words(s)[i - 1] == rest[i - 2];
        } else {
          assert s[n..] != "" && s[n..][0] == s[n];
          OneWord(s, n);
        }
      }
      OneWord(s, n);
    }
  }

  lemma OneWord(s: string, n: nat)
    requires s != "" && n == if Separates(s[0]) then 1 else WordLength(s)
    ensures IsSeparator(s[..n]) <==> Separates(s[0])
    ensures IsPlain(s[..n]) <==> !Separates(s[0])
  {
    var w := s[..n];
    assert w != "" ==> w[0] == s[0];
    if Separates(s[0]) { assert w == [s[0]]; }
  }

  /** There is no other way to cut a text into words. */
  lemma {:induction false} WordsAreUnique(ws: seq<string>, s: string)
    requires AreWords(ws) && Joined(ws) == s
    ensures ws == Words(s)
    decreases |ws|
  {
    hide AreWords, Words, IsSeparator, IsPlain;
    if ws == [] {
      assert Words("") == [] by { NoWords(); }
    } else {
      RestAreWords(ws);
      WordsAreUnique(ws[1..], Joined(ws[1..]));
      FirstWord(ws);
      assert ws == [ws[0]] + ws[1..];
    }
  }

  lemma NoWords()
    ensures Words("") == []
  {}

  lemma RestAreWords(ws: seq<string>)
    requires AreWords(ws) && ws != []
    ensures AreWords(ws[1..]) && (IsSeparator(ws[0]) || IsPlain(ws[0]))
  {
    hide IsSeparator, IsPlain;
    var rest := ws[1..];
    assert ws[0] in ws;
    forall i | 0 < i < |rest| ensures IsSeparator(rest[i - 1]) || IsSeparator(rest[i]) {
      assert rest[i] == ws[i + 1] && rest[i - 1] == ws[i + 1 - 1];
    }
  }

  lemma FirstWord(ws: seq<string>)
    requires AreWords(ws) && ws != [] && (IsSeparator(ws[0]) || IsPlain(ws[0]))
    ensures Words(Joined(ws)) == [ws[0]] + Words(Joined(ws[1..]))
  {
    hide AreWords;
    var w, rest := ws[0], Joined(ws[1..]);
    var s := w + rest;
    assert s[..|w|] == w && s[|w|..] == rest && s[0] == w[0];
    if IsSeparator(w) {
      assert |w| == 1 && Separates(s[0]);
    } else {
      NextSeparates(ws);
      WordEnds(s, |w|);
    }
  }

  lemma NextSeparates(ws: seq<string>)
    requires AreWords(ws) && ws != [] && IsPlain(ws[0])
    ensures forall i :: 0 <= i < |ws[0]| ==> !Separates(ws[0][i])
    ensures var t := Joined(ws[1..]); t != "" ==> Separates(t[0])
  {
    if |ws| > 1 {
      var v := ws[1..][0];
      assert v == ws[1] && IsSeparator(v);
      assert Joined(ws[1..]) == v + Joined(ws[1..][1..]);
    }
  }
}
