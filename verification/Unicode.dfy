/** Canonical decomposition and composition as the kernel's text support does
    them: table rows and Hangul arithmetic, without reordering of marks. */
module Unicode {
  import opened Basics
  import opened UnicodeTable

  /** A Unicode scalar value. */
  type Char = c: nat | c < 0xD800 || 0xE000 <= c < 0x11_0000

  const SBASE: nat := 0xAC00
  const LBASE: nat := 0x1100
  const VBASE: nat := 0x1161
  const TBASE: nat := 0x11A7
  const LCOUNT: nat := 19
  const VCOUNT: nat := 21
  const TCOUNT: nat := 28
  const NCOUNT: nat := 588
  const SCOUNT: nat := 11172

  predicate IsCombining(v: nat) {
    || 0x0300 <= v <= 0x036F || 0x0610 <= v <= 0x061A || 0x064B <= v <= 0x065F || 0x1AB0 <= v <= 0x1AFF
    || 0x1DC0 <= v <= 0x1DFF || 0x20D0 <= v <= 0x20FF || 0xFE20 <= v <= 0xFE2F
  }

  predicate IsL(v: nat) { LBASE <= v < LBASE + LCOUNT }
  predicate IsV(v: nat) { VBASE <= v < VBASE + VCOUNT }
  predicate IsT(v: nat) { TBASE < v < TBASE + TCOUNT }
  predicate IsSyllable(v: nat) { SBASE <= v < SBASE + SCOUNT }
  predicate IsLV(v: nat) { IsSyllable(v) && (v - SBASE) % TCOUNT == 0 }

  function LV(l: nat, v: nat): (s: nat)
    requires IsL(l) && IsV(v)
    ensures IsLV(s) && s + TCOUNT <= SBASE + SCOUNT
  {
    SBASE + (l - LBASE) * NCOUNT + (v - VBASE) * TCOUNT
  }

  // ----- the table -----

  /** The row of a precomposed character. */
  function RowOf(t: seq<Row>, v: nat): (r: Option<nat>)
    ensures r.Some? ==> r.value < |t| && t[r.value].0 == v
    ensures r.None? ==> forall i :: 0 <= i < |t| ==> t[i].0 != v
  {
    if t == [] then None
    else if t[|t| - 1].0 == v then Some(|t| - 1)
    else RowOf(t[..|t| - 1], v)
  }

  /** The first row with a base and a mark. */
  function RowWith(t: seq<Row>, b: nat, m: nat): (r: Option<nat>)
    ensures r.Some? ==> r.value < |t| && t[r.value].1 == b && t[r.value].2 == m
    ensures r.None? ==> forall i :: 0 <= i < |t| ==> t[i].1 != b || t[i].2 != m
  {
    if t == [] then None
    else
      var r := RowWith(t[..|t| - 1], b, m);
      if r.Some? then r
      else if t[|t| - 1].1 == b && t[|t| - 1].2 == m then Some(|t| - 1)
      else None
  }

  /** What normalisation needs to know about one row. */
  lemma RowFacts(i: nat)
    requires i < |DECOMP|
    ensures KeyRange(DECOMP[i].0) && BaseRange(DECOMP[i].1) && MarkRange(DECOMP[i].2)
    ensures RowOf(DECOMP, DECOMP[i].0) == Some(i)
    ensures RowWith(DECOMP, DECOMP[i].1, DECOMP[i].2) == Some(i)
  {
    hide RowOf, RowWith, StrictlySorted;
    TableIsSorted();
    var r := RowOf(DECOMP, DECOMP[i].0);
    SameOrder(Key, DECOMP, i, r.value);
    PairsAreDistinct(i, RowWith(DECOMP, DECOMP[i].1, DECOMP[i].2).value);
  }

  lemma NoRow(v: nat)
    ensures !KeyRange(v) ==> RowOf(DECOMP, v) == None
    ensures forall m :: !BaseRange(v) ==> RowWith(DECOMP, v, m) == None
  {
    hide RowOf, RowWith, StrictlySorted;
    TableIsSorted();
    NoRowIn(DECOMP, v);
  }

  lemma NoRowIn(t: seq<Row>, v: nat)
    requires RowsInRange(t)
    ensures !KeyRange(v) ==> RowOf(t, v) == None
    ensures forall m :: !BaseRange(v) ==> RowWith(t, v, m) == None
  {
    hide RowOf, RowWith;
    var r := RowOf(t, v);
    assert r.Some? ==> KeyRange(t[r.value].0);
    forall m ensures !BaseRange(v) ==> RowWith(t, v, m) == None {
      var q := RowWith(t, v, m);
      assert q.Some? ==> BaseRange(t[q.value].1);
    }
  }

  // ----- decomposition -----

  function Decompose(c: Char): (d: seq<Char>)
    ensures 1 <= |d| <= 3
  {
    if IsSyllable(c) then
      var si := c - SBASE;
      var l, v, t := LBASE + si / NCOUNT, VBASE + (si % NCOUNT) / TCOUNT, si % TCOUNT;
      if t > 0 then [l, v, TBASE + t] else [l, v]
    else match RowOf(DECOMP, c)
      case Some(i) => RowFacts(i); [DECOMP[i].1, DECOMP[i].2]
      case None => [c]
  }

  function Nfd(s: seq<Char>): (r: seq<Char>) {
    if s == [] then [] else Decompose(s[0]) + Nfd(s[1..])
  }

  /** Hangul arithmetic inverts: a syllable is its own recomposition. */
  lemma SyllableParts(c: Char)
    requires IsSyllable(c)
    ensures var d := Decompose(c);
            && IsL(d[0]) && IsV(d[1]) && (|d| == 3 ==> IsT(d[2]))
            && c == LV(d[0], d[1]) + (if |d| == 3 then d[2] - TBASE else 0)
            && (|d| == 2 <==> IsLV(c))
  {}

  lemma PartsOfSyllable(l: nat, v: nat, t: nat)
    requires IsL(l) && IsV(v) && t < TCOUNT
    ensures var c := LV(l, v) + t;
            IsSyllable(c) && Decompose(c) == if t > 0 then [l, v, TBASE + t] else [l, v]
  {
    hide RowOf;
    SyllableIndex(l - LBASE, v - VBASE, t);
  }

  lemma SyllableIndex(l: nat, v: nat, t: nat)
    requires l < LCOUNT && v < VCOUNT && t < TCOUNT
    ensures var si := l * NCOUNT + v * TCOUNT + t;
            si < SCOUNT && si / NCOUNT == l && si % NCOUNT / TCOUNT == v && si % TCOUNT == t
  {
    var si := l * NCOUNT + v * TCOUNT + t;
    assert si == 28 * (21 * l + v) + t;
    assert si % NCOUNT == v * TCOUNT + t;
  }

  predicate Stable(s: seq<Char>) {
    forall i :: 0 <= i < |s| ==> Decompose(s[i]) == [s[i]]
  }

  lemma StableChar(c: Char)
    requires !IsSyllable(c) && !KeyRange(c)
    ensures Decompose(c) == [c]
  {
    hide RowOf;
    NoRow(c);
  }

  lemma DecomposeIsStable(c: Char)
    ensures Stable(Decompose(c))
  {
    hide RowOf;
    var d := Decompose(c);
    if IsSyllable(c) {
      SyllableParts(c);
    } else if RowOf(DECOMP, c).Some? {
      RowFacts(RowOf(DECOMP, c).value);
    }
    forall i | 0 <= i < |d| ensures Decompose(d[i]) == [d[i]] {
      if d != [c] { StableChar(d[i]); }
    }
  }

  lemma {:induction false} NfdIsStable(s: seq<Char>)
    ensures Stable(Nfd(s))
  {
    hide Decompose;
    if s != [] {
      DecomposeIsStable(s[0]);
      NfdIsStable(s[1..]);
    }
  }

  lemma {:induction false} NfdOfStable(s: seq<Char>)
    requires Stable(s)
    ensures Nfd(s) == s
  {
    hide Decompose;
    if s != [] {
      NfdOfStable(s[1..]);
      assert s == [s[0]] + s[1..];
    }
  }

  lemma NfdIdempotent(s: seq<Char>)
    ensures Nfd(Nfd(s)) == Nfd(s)
  {
    NfdIsStable(s);
    NfdOfStable(Nfd(s));
  }

  // ----- composition -----

  /** The character that the front of `s` composes to, and how much it takes. */
  function ComposeFront(s: seq<Char>): (r: (Char, nat))
    requires s != []
    ensures 1 <= r.1 <= |s|
  {
    if |s| >= 2 && IsL(s[0]) && IsV(s[1]) then
      if |s| >= 3 && IsT(s[2]) then (LV(s[0], s[1]) + (s[2] - TBASE), 3) else (LV(s[0], s[1]), 2)
    else if |s| >= 2 && IsLV(s[0]) && IsT(s[1]) then (s[0] + (s[1] - TBASE), 2)
    else if |s| >= 2 && IsCombining(s[1]) && RowWith(DECOMP, s[0], s[1]).Some? then
      RowFacts(RowWith(DECOMP, s[0], s[1]).value);
      (DECOMP[RowWith(DECOMP, s[0], s[1]).value].0, 2)
    else (s[0], 1)
  }

  function Compose(s: seq<Char>): (r: seq<Char>)
    decreases |s|
  {
    if s == [] then []
    else
      var (c, k) := ComposeFront(s);
      [c] + Compose(s[k..])
  }

  function Nfc(s: seq<Char>): (r: seq<Char>) {
    Compose(Nfd(s))
  }

  /** Composing the front of decomposed text takes exactly what its result decomposes to. */
  lemma FrontDecomposes(s: seq<Char>)
    requires s != [] && Stable(s)
    ensures var (c, k) := ComposeFront(s); Decompose(c) == s[..k]
  {
    hide RowOf, RowWith;
    assert Decompose(s[0]) == [s[0]];
    if IsSyllable(s[0]) {
      SyllableParts(s[0]);
    } else if |s| >= 2 && IsL(s[0]) && IsV(s[1]) {
      PartsOfSyllable(s[0], s[1], if |s| >= 3 && IsT(s[2]) then s[2] - TBASE else 0);
    } else if |s| >= 2 && IsCombining(s[1]) && RowWith(DECOMP, s[0], s[1]).Some? {
      RowFacts(RowWith(DECOMP, s[0], s[1]).value);
    }
  }

  lemma ComposeStep(s: seq<Char>)
    requires s != []
    ensures var (c, k) := ComposeFront(s); Compose(s) == [c] + Compose(s[k..])
  {
    hide ComposeFront;
  }

  lemma NfdStep(c: Char, t: seq<Char>)
    ensures Nfd([c] + t) == Decompose(c) + Nfd(t)
  {
    hide Decompose;
    assert ([c] + t)[1..] == t;
  }

  lemma {:induction false} NfdOfCompose(s: seq<Char>)
    requires Stable(s)
    ensures Nfd(Compose(s)) == s
    decreases |s|
  {
    hide Decompose, ComposeFront, Stable, Compose, Nfd;
    if s == [] {
      NothingToCompose();
    } else {
      var (c, k) := ComposeFront(s);
      FrontDecomposes(s);
      StableSuffix(s, k);
      NfdOfCompose(s[k..]);
      ComposeStep(s);
      NfdStep(c, Compose(s[k..]));
      assert s == s[..k] + s[k..];
    }
  }

  lemma NothingToCompose()
    ensures Compose([]) == [] && Nfd([]) == []
  {}

  lemma StableSuffix(s: seq<Char>, k: nat)
    requires Stable(s) && k <= |s|
    ensures Stable(s[k..])
  {
    hide Decompose;
  }

  /** Composing loses nothing: the result decomposes to the same text. */
  lemma NfdOfNfc(s: seq<Char>)
    ensures Nfd(Nfc(s)) == Nfd(s)
  {
    NfdIsStable(s);
    NfdOfCompose(Nfd(s));
  }

  lemma NfcIdempotent(s: seq<Char>)
    ensures Nfc(Nfc(s)) == Nfc(s)
  {
    NfdOfNfc(s);
  }

  lemma NfcOfNfd(s: seq<Char>)
    ensures Nfc(Nfd(s)) == Nfc(s)
  {
    NfdIdempotent(s);
  }

  /** Two texts have the same composed form exactly when they have the same decomposed one. */
  lemma SameNormalForms(s: seq<Char>, t: seq<Char>)
    ensures Nfc(s) == Nfc(t) <==> Nfd(s) == Nfd(t)
  {
    NfdOfNfc(s);
    NfdOfNfc(t);
  }

  // ----- recognising composed text -----

  /** The pair could compose through the table. */
  predicate TablePair(a: Char, b: Char) {
    IsCombining(b) && RowWith(DECOMP, a, b).Some?
  }

  predicate HangulPair(a: Char, b: Char) {
    (IsL(a) && IsV(b)) || (IsLV(a) && IsT(b))
  }

  predicate LikelyNfc(s: seq<Char>) {
    forall i :: 0 <= i < |s| - 1 ==> !TablePair(s[i], s[i + 1])
  }

  predicate NoHangulPair(s: seq<Char>) {
    forall i :: 0 <= i < |s| - 1 ==> !HangulPair(s[i], s[i + 1])
  }

  /** A precomposed character or a full syllable composes with nothing. */
  lemma ComposedIsDone(c: Char, next: Char)
    requires KeyRange(c) || (IsSyllable(c) && !IsLV(c))
    ensures !TablePair(c, next) && !HangulPair(c, next)
  {
    hide RowWith;
    NoRow(c);
  }

  lemma LVIsDone(c: Char, next: Char)
    requires IsLV(c) && !IsT(next)
    ensures !TablePair(c, next) && !HangulPair(c, next)
  {
    hide RowWith;
    NoRow(c);
  }

  /** What the front composed to does not compose with the character that comes
      out next: that one is the next input, or a composed one. */
  lemma FrontIsDone(s: seq<Char>, next: Char)
    requires s != [] && Stable(s)
    requires var (c, k) := ComposeFront(s);
             k < |s| && (next == s[k] || IsSyllable(next) || KeyRange(next))
    ensures var (c, k) := ComposeFront(s); !TablePair(c, next) && !HangulPair(c, next)
  {
    hide RowOf, RowWith, TablePair, HangulPair, Decompose, LV;
    var (c, k) := ComposeFront(s);
    NotSyllable(s[0]);
    if k == 3 {
      FullSyllable(s[0], s[1], s[2] - TBASE);
      ComposedIsDone(c, next);
    } else if k == 2 {
      if IsL(s[0]) && IsV(s[1]) {
        LVIsDone(c, next);
      } else {
        RowFacts(RowWith(DECOMP, s[0], s[1]).value);
        ComposedIsDone(c, next);
      }
    } else {
      UncomposedIsDone(s, next);
    }
  }

  lemma NotSyllable(c: Char)
    requires Decompose(c) == [c]
    ensures !IsSyllable(c)
  {
    if IsSyllable(c) { SyllableParts(c); }
  }

  lemma FullSyllable(l: nat, v: nat, t: nat)
    requires IsL(l) && IsV(v) && 0 < t < TCOUNT
    ensures var c := LV(l, v) + t; IsSyllable(c) && !IsLV(c)
  {
    PartsOfSyllable(l, v, t);
    SyllableParts(LV(l, v) + t);
  }

  lemma UncomposedIsDone(s: seq<Char>, next: Char)
    requires |s| >= 2 && !IsSyllable(s[0]) && ComposeFront(s) == (s[0], 1)
    requires next == s[1] || IsSyllable(next) || KeyRange(next)
    ensures !TablePair(s[0], next) && !HangulPair(s[0], next)
  {
    hide RowWith;
  }

  lemma ComposedStart(s: seq<Char>)
    requires s != []
    ensures Compose(s) != [] && (Compose(s)[0] == s[0] || IsSyllable(Compose(s)[0]) || KeyRange(Compose(s)[0]))
  {
    hide Compose, ComposeFront;
    ComposeStep(s);
    FrontStart(s);
  }

  lemma FrontStart(s: seq<Char>)
    requires s != []
    ensures var c := ComposeFront(s).0; c == s[0] || IsSyllable(c) || KeyRange(c)
  {
    hide RowOf, RowWith, KeyRange;
    if |s| >= 2 && RowWith(DECOMP, s[0], s[1]).Some? {
      RowFacts(RowWith(DECOMP, s[0], s[1]).value);
    }
  }

  lemma {:induction false} ComposeIsComposed(s: seq<Char>)
    requires Stable(s)
    ensures LikelyNfc(Compose(s)) && NoHangulPair(Compose(s))
    decreases |s|
  {
    hide ComposeFront, TablePair, HangulPair, Decompose;
    if s != [] {
      var (c, k) := ComposeFront(s);
      var rest := Compose(s[k..]);
      ComposeIsComposed(s[k..]);
      if k < |s| {
        ComposedStart(s[k..]);
        FrontIsDone(s, rest[0]);
      }
      var r := [c] + rest;
      forall i | 0 <= i < |r| - 1 ensures !TablePair(r[i], r[i + 1]) && !HangulPair(r[i], r[i + 1]) {
        if i > 0 { assert r[i] == rest[i - 1] && r[i + 1] == rest[i - 1 + 1]; }
      }
    }
  }

  /** A character at the start of text that does not compose with its neighbour
      is put together again from its own parts. */
  lemma FrontRecomposes(c: Char, t: seq<Char>)
    requires t != [] ==> !TablePair(c, t[0]) && !HangulPair(c, t[0])
    ensures ComposeFront(Decompose(c) + Nfd(t)) == (c, |Decompose(c)|)
  {
    hide Decompose, ComposeFront, TablePair, HangulPair;
    var y := Nfd(t);
    if t != [] {
      FirstPart(t[0]);
      assert y[0] == Decompose(t[0])[0];
      SamePairs(c, t[0], y[0]);
    } else {
      assert y == [];
    }
    Recomposes(c, y);
  }

  /** What does not compose with a character does not compose with its first part. */
  lemma SamePairs(c: Char, d: Char, e: Char)
    requires IsV(e) || IsT(e) || IsCombining(e) ==> e == d
    requires !TablePair(c, d) && !HangulPair(c, d)
    ensures !TablePair(c, e) && !HangulPair(c, e)
  {
    hide RowWith;
  }

  lemma Recomposes(c: Char, y: seq<Char>)
    requires y != [] ==> !TablePair(c, y[0]) && !HangulPair(c, y[0])
    ensures ComposeFront(Decompose(c) + y) == (c, |Decompose(c)|)
  {
    hide RowOf, RowWith;
    var s := Decompose(c) + y;
    if IsSyllable(c) {
      SyllableParts(c);
      if |Decompose(c)| == 2 && y != [] { assert s[2] == y[0]; }
    } else if RowOf(DECOMP, c).Some? {
      RowFacts(RowOf(DECOMP, c).value);
    } else {
      NoRow(c);
      if y != [] { assert s[1] == y[0]; }
    }
  }

  /** The first part of a character is a vowel, a final or a mark only if it is
      the character itself. */
  lemma FirstPart(c: Char)
    ensures var d := Decompose(c)[0]; IsV(d) || IsT(d) || IsCombining(d) ==> d == c
  {
    hide RowOf, RowWith;
    if IsSyllable(c) {
      SyllableParts(c);
    } else if RowOf(DECOMP, c).Some? {
      RowFacts(RowOf(DECOMP, c).value);
    }
  }

  lemma {:induction false} NfcOfComposed(s: seq<Char>)
    requires LikelyNfc(s) && NoHangulPair(s)
    ensures Nfc(s) == s
  {
    hide ComposeFront, TablePair, HangulPair, Decompose;
    if s != [] {
      var d, t := Decompose(s[0]), s[1..];
      if t != [] { assert !TablePair(s[0], s[0 + 1]) && !HangulPair(s[0], s[0 + 1]); }
      FrontRecomposes(s[0], t);
      assert (d + Nfd(t))[|d|..] == Nfd(t);
      forall i | 0 <= i < |t| - 1 ensures !TablePair(t[i], t[i + 1]) && !HangulPair(t[i], t[i + 1]) {
        assert t[i] == s[i + 1] && t[i + 1] == s[i + 1 + 1];
      }
      NfcOfComposed(t);
      assert s == [s[0]] + t;
    }
  }

  /** Composition leaves a text alone exactly when the quick check passes and no
      Hangul letters are left to join; every composed text is such a text. */
  lemma FixedByNfc(s: seq<Char>)
    ensures Nfc(s) == s <==> LikelyNfc(s) && NoHangulPair(s)
    ensures LikelyNfc(Nfc(s)) && NoHangulPair(Nfc(s))
  {
    hide Nfd, LikelyNfc, NoHangulPair, Compose;
    NfdIsStable(s);
    ComposeIsComposed(Nfd(s));
    if LikelyNfc(s) && NoHangulPair(s) { NfcOfComposed(s); }
  }

  /** The quick check alone is not enough: it passes two Hangul letters that compose. */
  lemma QuickCheckMissesHangul()
    ensures LikelyNfc([0x1100, 0x1161]) && Nfc([0x1100, 0x1161]) == [0xAC00]
  {
    hide RowOf, RowWith;
    var s: seq<Char> := [0x1100, 0x1161];
    StableChar(s[0]);
    StableChar(s[1]);
    NfdOfStable(s);
    assert Compose(s) == [0xAC00] + Compose(s[2..]);
  }

  // ----- the code -----

  predicate IsAscii(s: seq<Char>) {
    forall i :: 0 <= i < |s| ==> s[i] < 0x80
  }

  lemma AsciiIsStable(s: seq<Char>)
    requires IsAscii(s)
    ensures Stable(s) && LikelyNfc(s) && NoHangulPair(s)
  {
    hide RowOf, RowWith;
    forall i | 0 <= i < |s| ensures Decompose(s[i]) == [s[i]] { StableChar(s[i]); }
  }

  /** Binary search for a precomposed character. */
  method FindRow(t: seq<Row>, v: nat) returns (r: Option<nat>)
    requires StrictlySorted(Key, t)
    ensures r == RowOf(t, v)
  {
    hide RowOf;
    var lo, hi := 0, |t|;
    while lo < hi
      invariant 0 <= lo <= hi <= |t|
      invariant forall i :: 0 <= i < lo ==> t[i].0 < v
      invariant forall i :: hi <= i < |t| ==> v < t[i].0
    {
      var mid := (lo + hi) / 2;
      SplitSorted(t, mid, v);
      if t[mid].0 == v {
        assert RowOf(t, v).Some?;
        SameOrder(Key, t, mid, RowOf(t, v).value);
        return Some(mid);
      } else if t[mid].0 < v {
        lo := mid + 1;
      } else {
        hi := mid;
      }
    }
    r := None;
  }

  lemma SplitSorted(t: seq<Row>, mid: nat, v: nat)
    requires StrictlySorted(Key, t) && mid < |t|
    ensures t[mid].0 < v ==> forall i :: 0 <= i <= mid ==> t[i].0 < v
    ensures v < t[mid].0 ==> forall i :: mid <= i < |t| ==> v < t[i].0
  {
    forall i | 0 <= i < |t|
      ensures i < mid ==> t[i].0 < t[mid].0
      ensures mid < i ==> t[mid].0 < t[i].0
    {
      if i < mid { assert Key(t[i]) < Key(t[mid]); }
      if mid < i { assert Key(t[mid]) < Key(t[i]); }
    }
  }

  method DecomposeChar(v: Char) returns (out: seq<Char>)
    ensures out == Decompose(v)
  {
    hide RowOf;
    if v >= SBASE && v < SBASE + SCOUNT {
      var si := v - SBASE;
      out := [LBASE + si / NCOUNT];
      out := out + [VBASE + (si % NCOUNT) / TCOUNT];
      if si % TCOUNT > 0 { out := out + [TBASE + si % TCOUNT]; }
    } else {
      TableIsSorted();
      var row := FindRow(DECOMP, v);
      match row
      case Some(k) =>
        RowFacts(k);
        out := [DECOMP[k].1, DECOMP[k].2];
      case None => out := [v];
    }
  }

  method NormalizeNfd(s: seq<Char>) returns (out: seq<Char>)
    ensures out == Nfd(s)
  {
    hide Decompose, LikelyNfc, NoHangulPair;
    if forall i :: 0 <= i < |s| ==> s[i] < 0x80 {
      AsciiIsStable(s);
      NfdOfStable(s);
      return s;
    }
    out := [];
    for i := 0 to |s|
      invariant Nfd(s) == out + Nfd(s[i..])
    {
      assert s[i..][1..] == s[i + 1..];
      var d := DecomposeChar(s[i]);
      out := out + d;
    }
  }

  /** Linear search for a base and a mark. */
  method FindPair(t: seq<Row>, b: nat, m: nat) returns (r: Option<nat>)
    ensures r == RowWith(t, b, m)
  {
    for i := 0 to |t|
      invariant RowWith(t[..i], b, m) == None
    {
      assert t[..i + 1][..i] == t[..i];
      if t[i].1 == b && t[i].2 == m {
        FirstRow(t, i, b, m);
        return Some(i);
      }
    }
    assert t[..|t|] == t;
    r := None;
  }

  lemma {:induction false} FirstRow(t: seq<Row>, i: nat, b: nat, m: nat)
    requires i < |t| && t[i].1 == b && t[i].2 == m && RowWith(t[..i], b, m) == None
    ensures RowWith(t, b, m) == Some(i)
  {
    if i < |t| - 1 {
      assert t[..|t| - 1][..i] == t[..i];
      FirstRow(t[..|t| - 1], i, b, m);
    }
  }

  method NormalizeNfc(s: seq<Char>) returns (out: seq<Char>)
    ensures out == Nfc(s)
  {
    hide RowWith, RowOf, Nfd, Decompose, LikelyNfc, NoHangulPair, ComposeFront;
    if forall i :: 0 <= i < |s| ==> s[i] < 0x80 {
      AsciiIsStable(s);
      NfcOfComposed(s);
      return s;
    }
    var chars := NormalizeNfd(s);
    var n := |chars|;
    if n == 0 { return chars; }
    out := [];
    var i := 0;
    while i < n
      invariant 0 <= i <= n && Compose(chars) == out + Compose(chars[i..])
    {
      var c, k := ComposeAt(chars, i);
      assert chars[i..][k..] == chars[i + k..];
      out := out + [c];
      i := i + k;
    }
  }

  /** One turn of the composing loop: what it emits and how far it moves. */
  method ComposeAt(chars: seq<Char>, i: nat) returns (c: Char, k: nat)
    requires i < |chars|
    ensures (c, k) == ComposeFront(chars[i..])
  {
    hide RowWith;
    var n := |chars|;
    if i + 1 < n {
      var base, next := chars[i], chars[i + 1];
      if IsL(base) && IsV(next) {
        var lv := SBASE + (base - LBASE) * NCOUNT + (next - VBASE) * TCOUNT;
        assert lv == LV(base, next);
        if i + 2 < n {
          var t := chars[i + 2];
          if t > TBASE && t < TBASE + TCOUNT { return lv + (t - TBASE), 3; }
        }
        return lv, 2;
      }
      if IsSyllable(base) {
        if (base - SBASE) % TCOUNT == 0 {
          if next > TBASE && next < TBASE + TCOUNT { return base + (next - TBASE), 2; }
        }
      }
      if IsCombining(next) {
        var row := FindPair(DECOMP, base, next);
        if row.Some? {
          RowFacts(row.value);
          return DECOMP[row.value].0, 2;
        }
      }
    }
    return chars[i], 1;
  }

  method IsLikelyNfc(s: seq<Char>) returns (r: bool)
    ensures r <==> LikelyNfc(s)
  {
    hide TablePair;
    if forall i :: 0 <= i < |s| ==> s[i] < 0x80 {
      AsciiIsStable(s);
      return true;
    }
    for i := 0 to |s| - 1
      invariant forall j :: 0 <= j < i ==> !TablePair(s[j], s[j + 1])
    {
      var found := IsTablePair(s[i], s[i + 1]);
      if found { return false; }
    }
    r := true;
  }

  /** The search through the table for a pair. */
  method IsTablePair(base: Char, mark: Char) returns (r: bool)
    ensures r <==> TablePair(base, mark)
  {
    hide RowWith;
    if !IsCombining(mark) { return false; }
    var row := FindPair(DECOMP, base, mark);
    r := row.Some?;
  }

  // ----- user-perceived characters -----

  function Flatten(c: seq<seq<Char>>): (s: seq<Char>) {
    if c == [] then [] else Flatten(c[..|c| - 1]) + c[|c| - 1]
  }

  function BaseCount(s: seq<Char>): (n: nat) {
    if s == [] then 0 else BaseCount(s[..|s| - 1]) + (if IsCombining(s[|s| - 1]) then 0 else 1)
  }

  /** A cluster is one character and the marks after it. */
  predicate IsCluster(c: seq<Char>) {
    c != [] && forall i :: 1 <= i < |c| ==> IsCombining(c[i])
  }

  /** Clusters are the text cut before every base character, so their number is
      the count of base characters unless the text starts with a mark. */
  method GraphemeClusters(s: seq<Char>) returns (clusters: seq<seq<Char>>)
    ensures Clusters(clusters, s)
  {
    hide Clusters, IsCombining;
    clusters := [];
    NoClusters();
    assert s[..0] == [];
    for i := 0 to |s|
      invariant Clusters(clusters, s[..i]) && (clusters == [] ==> i == 0)
    {
      assert s[..i + 1] == s[..i] + [s[i]];
      if IsCombining(s[i]) && clusters != [] {
        JoinsCluster(clusters, s[..i], s[i]);
        var n := |clusters| - 1;
        clusters := clusters[n := clusters[n] + [s[i]]];
      } else {
        BeginsCluster(clusters, s[..i], s[i]);
        clusters := clusters + [[s[i]]];
      }
    }
    assert s[..|s|] == s;
  }

  ghost predicate Clusters(cs: seq<seq<Char>>, s: seq<Char>) {
    && Flatten(cs) == s
    && (forall i :: 0 <= i < |cs| ==> IsCluster(cs[i]))
    && (forall i :: 1 <= i < |cs| ==> IsCluster(cs[i]) && !IsCombining(cs[i][0]))
    && |cs| == BaseCount(s) + (if s != [] && IsCombining(s[0]) then 1 else 0)
  }

  lemma NoClusters()
    ensures Clusters([], [])
  {}

  lemma JoinsCluster(cs: seq<seq<Char>>, s: seq<Char>, c: Char)
    requires Clusters(cs, s) && cs != [] && IsCombining(c)
    ensures Clusters(cs[|cs| - 1 := cs[|cs| - 1] + [c]], s + [c])
  {
    hide IsCombining;
    var n := |cs| - 1;
    var ds := cs[n := cs[n] + [c]];
    assert ds[..n] == cs[..n] && (s + [c])[..|s|] == s;
    assert Flatten(ds) == Flatten(cs[..n]) + (cs[n] + [c]);
    NotEmpty(cs);
  }

  lemma BeginsCluster(cs: seq<seq<Char>>, s: seq<Char>, c: Char)
    requires Clusters(cs, s) && (cs == [] || !IsCombining(c)) && (cs == [] ==> s == [])
    ensures Clusters(cs + [[c]], s + [c])
  {
    hide IsCombining;
    assert (cs + [[c]])[..|cs|] == cs && (s + [c])[..|s|] == s;
    if cs != [] { NotEmpty(cs); }
  }

  lemma NotEmpty(cs: seq<seq<Char>>)
    requires cs != [] && forall i :: 0 <= i < |cs| ==> IsCluster(cs[i])
    ensures Flatten(cs) != []
  {
    assert IsCluster(cs[|cs| - 1]);
  }
}
