/** What the kernel's text support has to agree with: the Unicode Standard's arithmetic of Hangul
    syllables and its case pairs, and how decomposing text changes the count of its characters. */
module UnicodeLaws {
  import opened Basics
  import opened UnicodeTable
  import opened Unicode

  // ----- Hangul -----

  /** Section 3.12 of the Unicode Standard: the syllables U+AC00 to U+D7A3 are all combinations of
      nineteen leading consonants, twenty-one vowels and twenty-seven or no trailing consonants. */
  lemma HangulIsStandard(c: Char)
    ensures IsSyllable(c) <==> 0xAC00 <= c <= 0xD7A3
    ensures 0xAC00 <= c <= 0xD7A3 ==>
      var i := c - 0xAC00;
      Decompose(c) == [0x1100 + i / 588, 0x1161 + i % 588 / 28] + if i % 28 == 0 then [] else [0x11A7 + i % 28]
  {
    hide RowOf;
  }

  // ----- marks -----

  /** The combining characters, as first characters of ranges and how many each has. */
  const COMBINING: seq<(nat, nat)> := [
    (0x300, 112), (0x610, 11), (0x64B, 21), (0x1AB0, 80), (0x1DC0, 64), (0x20D0, 48), (0xFE20, 16)]

  lemma CombiningExactly(v: nat)
    ensures IsCombining(v) <==> exists r :: r in COMBINING && r.0 <= v < r.0 + r.1
  {
    if IsCombining(v) {
      var i := if v < 0x400 then 0 else if v < 0x620 then 1 else if v < 0x700 then 2 else if v < 0x1B00 then 3
               else if v < 0x1E00 then 4 else if v < 0x2100 then 5 else 6;
      assert COMBINING[i] in COMBINING && COMBINING[i].0 <= v < COMBINING[i].0 + COMBINING[i].1;
    }
  }

  // ----- counting -----

  lemma {:induction false} BaseCountJoin(a: seq<Char>, b: seq<Char>)
    ensures BaseCount(a + b) == BaseCount(a) + BaseCount(b)
    decreases |b|
  {
    hide IsCombining;
    if b == [] {
      assert a + b == a;
    } else {
      BaseCountJoin(a, b[..|b| - 1]);
      assert (a + b)[..|a + b| - 1] == a + b[..|b| - 1];
    }
  }

  lemma CountOfParts(c: Char)
    ensures BaseCount([c]) <= BaseCount(Decompose(c))
    ensures BaseCount([c]) == BaseCount(Decompose(c)) <==> !IsSyllable(c)
  {
    hide RowOf;
    assert [c][..0] == [];
    var d := Decompose(c);
    if IsSyllable(c) {
      SyllableParts(c);
      assert d[..2] == [d[0], d[1]] && d[..2][..1] == [d[0]] && [d[0]][..0] == [];
      assert BaseCount([d[0]]) == 1;
      assert BaseCount([d[0], d[1]]) == BaseCount([d[0]]) + 1;
      if |d| == 3 { assert BaseCount(d) == BaseCount(d[..2]) + 1; } else { assert d == d[..2]; }
    } else if RowOf(DECOMP, c).Some? {
      RowFacts(RowOf(DECOMP, c).value);
      assert d[..1] == [d[0]] && [d[0]][..0] == [];
    }
  }

  /** Decomposing never loses a character, and keeps their number exactly when the text has no Hangul
      syllable: marks join the character before them, but the letters of a syllable do not. */
  lemma {:induction false} CountOfNfd(s: seq<Char>)
    ensures BaseCount(s) <= BaseCount(Nfd(s))
    ensures BaseCount(s) == BaseCount(Nfd(s)) <==> forall c :: c in s ==> !IsSyllable(c)
    decreases |s|
  {
    hide Decompose, IsCombining, IsSyllable, BaseCount;
    if s == [] {
    } else {
      CountOfNfd(s[1..]);
      CountOfParts(s[0]);
      BaseCountJoin([s[0]], s[1..]);
      BaseCountJoin(Decompose(s[0]), Nfd(s[1..]));
      assert s == [s[0]] + s[1..] && s[0] in s;
      assert forall c :: c in s <==> c == s[0] || c in s[1..];
    }
  }

  // ----- case -----

  /** Lower case in the blocks that the table has characters of. */
  function Lower(c: Char): (l: Char) {
    if 0x41 <= c <= 0x5A || (0xC0 <= c <= 0xDE && c != 0xD7) || (0x391 <= c <= 0x3A9 && c != 0x3A2) then c + 0x20
    else if (0x100 <= c <= 0x137 && c != 0x130) || 0x14A <= c <= 0x177 then if c % 2 == 0 then c + 1 else c
    else if 0x139 <= c <= 0x148 || 0x179 <= c <= 0x17E then if c % 2 == 1 then c + 1 else c
    else if c == 0x178 then 0xFF
    else if c == 0x386 then 0x3AC
    else if 0x388 <= c <= 0x38A then c + 37
    else if c == 0x38C then 0x3CC
    else if c == 0x38E || c == 0x38F then c + 63
    else c
  }

  function LowerAll(s: seq<Char>): (r: seq<Char>)
    ensures |r| == |s| && forall i :: 0 <= i < |s| ==> r[i] == Lower(s[i])
  {
    seq(|s|, i requires 0 <= i < |s| => Lower(s[i]))
  }

  /** A row and the row of the same character in lower case. */
  predicate Pair(upper: Row, lower: Row) {
    && upper.0 < 0xD800 && upper.1 < 0xD800 && upper.2 == lower.2
    && Lower(upper.0) == lower.0 != upper.0 && Lower(upper.1) == lower.1 != upper.1
  }

  /** A row that is in lower case itself. */
  predicate IsLow(r: Row) { r.0 < 0xD800 && r.1 < 0xD800 && Lower(r.0) == r.0 && Lower(r.1) == r.1 }

  lemma PairsC0(i: nat)
    requires i < 15
    ensures Pair(ROWS_C0[i], ROWS_E0[i]) && IsLow(ROWS_E0[i])
  {}

  lemma PairsD0(i: nat)
    requires i < 11
    ensures Pair(ROWS_D0[i], ROWS_F0[i]) && IsLow(ROWS_F0[i])
  {}

  lemma Pairs100(i: nat)
    requires i < 10
    ensures Pair(ROWS_100[2 * i], ROWS_100[2 * i + 1]) && IsLow(ROWS_100[2 * i + 1])
  {
    Neighbours100(i);
  }

  lemma Pairs154(i: nat)
    requires i < 10
    ensures Pair(ROWS_154[2 * i], ROWS_154[2 * i + 1]) && IsLow(ROWS_154[2 * i + 1])
  {
    Neighbours154(i);
  }

  /** In these blocks a character in upper case is followed by the one in lower case. */
  lemma Neighbours100(i: nat)
    requires i < 10
    ensures Neighbours(ROWS_100[2 * i], ROWS_100[2 * i + 1])
  {}

  lemma Neighbours154(i: nat)
    requires i < 10
    ensures Neighbours(ROWS_154[2 * i], ROWS_154[2 * i + 1])
  {}

  predicate Neighbours(u: Row, l: Row) { l.0 == u.0 + 1 && l.1 == u.1 + 0x20 && 0x41 <= u.1 <= 0x5A && l.2 == u.2 }

  lemma PairsGreek(i: nat)
    requires i < 7
    ensures Pair(ROWS_GREEK[i], ROWS_GREEK[i + 7]) && IsLow(ROWS_GREEK[i + 7])
  {}

  /** Where the partner of a row stands; the last row of U+00F0 to U+00FF has none. */
  lemma RowCase(i: nat) returns (j: nat)
    requires i < |DECOMP|
    ensures j < |DECOMP| && DECOMP[i].0 < 0xD800
    ensures Pair(DECOMP[i], DECOMP[j]) || (IsLow(DECOMP[i]) && (DECOMP[i].0 == 0xFF || Pair(DECOMP[j], DECOMP[i])))
  {
    hide Pair, IsLow, DECOMP, ROWS_C0, ROWS_D0, ROWS_E0, ROWS_F0, ROWS_100, ROWS_154, ROWS_GREEK;
    KeyIsSmall(i);
    j := i;
    Blocks(i);
    if i < 15 {
      j := i + 26;
      Blocks(j);
      PairsC0(i);
    } else if i < 26 {
      j := i + 26;
      Blocks(j);
      PairsD0(i - 15);
    } else if i < 41 {
      j := i - 26;
      Blocks(j);
      PairsC0(i - 26);
    } else if i < 52 {
      j := i - 26;
      Blocks(j);
      PairsD0(i - 41);
    } else if i == 52 {
      LastOfF0();
    } else if i < 93 {
      var k := (i - 53) % 20;
      j := if k % 2 == 0 then i + 1 else i - 1;
      Blocks(j);
      if i < 73 { Pairs100(k / 2); } else { Pairs154(k / 2); }
    } else {
      j := if i < 100 then i + 7 else i - 7;
      Blocks(j);
      PairsGreek(if i < 100 then i - 93 else i - 100);
    }
  }

  lemma KeyIsSmall(i: nat)
    requires i < |DECOMP|
    ensures DECOMP[i].0 < 0xD800
  {
    hide RowOf, RowWith, DECOMP;
    RowFacts(i);
  }

  lemma LastOfF0()
    ensures ROWS_F0[11].0 == 0xFF && IsLow(ROWS_F0[11])
  {}

  /** The rows of the whole table by block. */
  lemma Blocks(i: nat)
    requires i < |DECOMP|
    ensures |DECOMP| == 107
    ensures DECOMP[i] ==
            if i < 15 then ROWS_C0[i] else if i < 26 then ROWS_D0[i - 15] else if i < 41 then ROWS_E0[i - 26]
            else if i < 53 then ROWS_F0[i - 41] else if i < 73 then ROWS_100[i - 53]
            else if i < 93 then ROWS_154[i - 73] else ROWS_GREEK[i - 93]
  {}

  /** Of the characters in upper case only one has a lower case character that is given. */
  lemma LowerIsInjective(c: Char, d: Char)
    requires Lower(c) != c && Lower(d) != d && Lower(c) == Lower(d)
    ensures c == d
  {}

  lemma LowerOfMark(m: Char)
    requires MarkRange(m)
    ensures Lower(m) == m
  {}

  lemma LowerOfParts(c: Char)
    requires IsSyllable(c)
    ensures Lower(c) == c && LowerAll(Decompose(c)) == Decompose(c)
  {
    hide RowOf;
    SyllableParts(c);
    var d := Decompose(c);
    assert forall i :: 0 <= i < |d| ==> Lower(d[i]) == d[i];
  }

  lemma LowerOfChar(c: Char)
    ensures c != 0x178 ==> Decompose(Lower(c)) == LowerAll(Decompose(c))
    ensures c == 0x178 ==> Decompose(c) == [c] && |Decompose(Lower(c))| == 2
  {
    hide RowOf, Lower, Pair, IsLow;
    if IsSyllable(c) {
      LowerOfParts(c);
      assert c != 0x178;
    } else if RowOf(DECOMP, c).Some? {
      var i := RowOf(DECOMP, c).value;
      RowFacts(i);
      var j := RowCase(i);
      RowFacts(j);
      RowLower(i, j, c);
    } else {
      NoRowLower(c);
    }
  }

  lemma RowLower(i: nat, j: nat, c: Char)
    requires i < |DECOMP| && j < |DECOMP| && DECOMP[i].0 == c && !IsSyllable(c)
    requires KeyRange(c) && MarkRange(DECOMP[i].2) && BaseRange(DECOMP[i].1) && BaseRange(DECOMP[j].1)
    requires RowOf(DECOMP, DECOMP[i].0) == Some(i) && RowOf(DECOMP, DECOMP[j].0) == Some(j) && KeyRange(DECOMP[j].0)
    requires Pair(DECOMP[i], DECOMP[j]) || (IsLow(DECOMP[i]) && (DECOMP[i].0 == 0xFF || Pair(DECOMP[j], DECOMP[i])))
    ensures Decompose(Lower(c)) == LowerAll(Decompose(c)) && c != 0x178
  {
    hide RowOf;
    var (_, b, m) := DECOMP[i];
    LowerOfMark(m);
    assert Decompose(c) == [b, m];
    if Pair(DECOMP[i], DECOMP[j]) {
      assert !IsSyllable(DECOMP[j].0);
      assert Decompose(Lower(c)) == [DECOMP[j].1, DECOMP[j].2];
    }
    NoRowOfY(i);
  }

  /** The table has no row for U+0178, the upper case of U+00FF. */
  lemma NoRowOfY(i: nat)
    requires i < |DECOMP|
    ensures DECOMP[i].0 != 0x178
  {
    TableIsSorted();
    Blocks(88);
    Blocks(89);
    assert Key(DECOMP[88]) == 0x171 && Key(DECOMP[89]) == 0x179;
    if i < 88 { assert Key(DECOMP[i]) < Key(DECOMP[88]); }
    if i > 89 { assert Key(DECOMP[89]) < Key(DECOMP[i]); }
  }

  lemma LowerTwice(c: Char)
    ensures Lower(Lower(c)) == Lower(c) && (Lower(c) != c ==> Lower(c) < 0x1000) && Lower(0x178) == 0xFF
  {}

  lemma NoRowLower(c: Char)
    requires !IsSyllable(c) && RowOf(DECOMP, c) == None
    ensures Decompose(c) == [c]
    ensures c != 0x178 ==> Decompose(Lower(c)) == [Lower(c)]
    ensures c == 0x178 ==> |Decompose(Lower(c))| == 2
  {
    hide RowOf, Lower, Pair, IsLow;
    var l := Lower(c);
    LowerTwice(c);
    var r := RowOf(DECOMP, l);
    if c == 0x178 {
      Blocks(52);
      LastOfF0();
      RowFacts(52);
    } else if l != c && r.Some? {
      var j := RowCase(r.value);
      NotUpper(r.value, j, c);
      assert false;
    }
  }

  lemma NotUpper(k: nat, j: nat, c: Char)
    requires k < |DECOMP| && j < |DECOMP| && DECOMP[k].0 == Lower(c) != c && c != 0x178
    requires Pair(DECOMP[k], DECOMP[j]) || (IsLow(DECOMP[k]) && (DECOMP[k].0 == 0xFF || Pair(DECOMP[j], DECOMP[k])))
    ensures DECOMP[j].0 == c
  {
    LowerTwice(c);
    if DECOMP[k].0 == 0xFF {
      LowerIsInjective(c, 0x178);
    } else {
      LowerIsInjective(c, DECOMP[j].0);
    }
  }

  lemma {:induction false} LowerJoin(a: seq<Char>, b: seq<Char>)
    ensures LowerAll(a + b) == LowerAll(a) + LowerAll(b)
  {
    hide Lower;
  }

  /** Decomposing and writing in lower case can be done in either order, for exactly those texts
      without U+0178: the table knows that character in lower case only. */
  lemma {:induction false} LowerCommutes(s: seq<Char>)
    ensures Nfd(LowerAll(s)) == LowerAll(Nfd(s)) <==> 0x178 !in s
    ensures |Nfd(LowerAll(s))| >= |Nfd(s)|
    decreases |s|
  {
    hide Decompose, Lower;
    if s == [] {
      assert LowerAll(s) == [];
    } else {
      var c, t := s[0], s[1..];
      LowerCommutes(t);
      LowerOfChar(c);
      LowerJoin(Decompose(c), Nfd(t));
      assert LowerAll(s)[1..] == LowerAll(t) && LowerAll(s)[0] == Lower(c);
      assert s == [c] + t;
      Splits(Decompose(Lower(c)), Nfd(LowerAll(t)), LowerAll(Decompose(c)), LowerAll(Nfd(t)));
    }
  }

  lemma Splits(a: seq<Char>, b: seq<Char>, x: seq<Char>, y: seq<Char>)
    ensures |a| == |x| ==> (a + b == x + y <==> a == x && b == y)
    ensures |a| > |x| && |b| >= |y| ==> a + b != x + y
  {
    if |a| == |x| && a + b == x + y {
      assert a == (a + b)[..|a|] && x == (x + y)[..|a|] && b == (a + b)[|a|..] && y == (x + y)[|a|..];
    }
    if |a| > |x| && |b| >= |y| { assert |a + b| > |x + y|; }
  }

  /** U+0178 in lower case is decomposed, and its own decomposition in lower case is not. */
  lemma LowerExample()
    ensures Nfd(LowerAll([0x178])) == [0x79, 0x308] && LowerAll(Nfd([0x178])) == [0xFF]
  {
    hide Decompose, DECOMP, RowOf;
    var c: Char := 0x178;
    assert [c][1..] == [] && LowerAll([c]) == [0xFF] && LowerAll([c])[1..] == [];
    LowerOfChar(c);
    RowOfFF();
    assert Nfd([c]) == [c] + Nfd([]);
  }

  lemma RowOfFF()
    ensures Decompose(0xFF) == [0x79, 0x308]
  {
    hide RowOf, RowWith;
    Blocks(52);
    RowFacts(52);
  }
}
