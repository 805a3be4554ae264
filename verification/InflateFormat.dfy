/** What section 3.2 of RFC 1951 fixes about deflate apart from any decoder: the tables of
    match lengths and distances, the order of the code length lengths, the fixed
    codes, and the blocks and symbols that are refused. */
module InflateFormat {
  import opened Basics
  import opened Bits
  import opened Huffman
  import opened HuffTree
  import opened Inflate
  import opened InflateRoundTrip
  import opened InflateStreams

  // ----- match lengths and distances -----

  /** Entry i of a table stands for the numbers from its base on, as many as its extra bits count. */
  predicate InTile(t: seq<(nat, nat)>, i: nat, n: nat) {
    i < |t| && t[i].0 <= n < t[i].0 + Pow2(t[i].1)
  }

  /** Up to entry k, each entry starts where the one before it ends. */
  ghost predicate Tiles(t: seq<(nat, nat)>, k: nat) {
    k <= |t| && forall i :: 0 < i < k ==> t[i].0 == t[i - 1].0 + Pow2(t[i - 1].1)
  }

  /** The length table: 28 entries that follow one another from 3 on, with one more extra bit
      for every four symbols from the ninth on, and one entry for 258. */
  lemma LengthTable()
    ensures |LEN_EXTRA| == 29 && LEN_EXTRA[0].0 == 3 && LEN_EXTRA[28] == (258, 0)
    ensures forall i :: 0 <= i < 28 ==> LEN_EXTRA[i].1 == if i < 8 then 0 else (i - 4) / 4
    ensures Tiles(LEN_EXTRA, 28) && LEN_EXTRA[27].0 + Pow2(LEN_EXTRA[27].1) == 259
  {
    SmallPowers();
    forall i | 0 < i < 28 ensures LEN_EXTRA[i].0 == LEN_EXTRA[i - 1].0 + Pow2(LEN_EXTRA[i - 1].1) {
      LengthTile(i);
    }
  }

  lemma LengthTile(i: nat)
    requires 0 < i < 28
    ensures LEN_EXTRA[i].0 == LEN_EXTRA[i - 1].0 + Pow2(LEN_EXTRA[i - 1].1)
  {
    SmallPowers();
    hide Pow2;
    var k := LEN_EXTRA[i - 1].1;
    assert k == if i < 9 then 0 else (i - 5) / 4;
  }

  /** The distance table: 30 entries that follow one another from 1 to 32768, with one more
      extra bit for every two symbols from the fifth on. */
  lemma DistanceTable()
    ensures |DIST_EXTRA| == 30 && DIST_EXTRA[0].0 == 1
    ensures forall i :: 0 <= i < 30 ==> DIST_EXTRA[i].1 == if i < 4 then 0 else (i - 2) / 2
    ensures Tiles(DIST_EXTRA, 30) && DIST_EXTRA[29].0 + Pow2(DIST_EXTRA[29].1) == 32769
  {
    MorePowers();
    forall i | 0 < i < 30 ensures DIST_EXTRA[i].0 == DIST_EXTRA[i - 1].0 + Pow2(DIST_EXTRA[i - 1].1) {
      DistanceTile(i);
    }
  }

  lemma DistanceTile(i: nat)
    requires 0 < i < 30
    ensures DIST_EXTRA[i].0 == DIST_EXTRA[i - 1].0 + Pow2(DIST_EXTRA[i - 1].1)
  {
    SmallPowers();
    MorePowers();
    hide Pow2;
    var k := DIST_EXTRA[i - 1].1;
    assert k == if i < 5 then 0 else (i - 3) / 2;
  }

  lemma SmallPowers()
    ensures Pow2(0) == 1 && Pow2(1) == 2 && Pow2(2) == 4 && Pow2(3) == 8 && Pow2(4) == 16 && Pow2(5) == 32
  {}

  lemma MorePowers()
    ensures Pow2(6) == 64 && Pow2(7) == 128 && Pow2(8) == 256 && Pow2(9) == 512
    ensures Pow2(10) == 1024 && Pow2(11) == 2048 && Pow2(12) == 4096 && Pow2(13) == 8192
  {
    SmallPowers();
  }

  lemma {:induction false} FindTile(t: seq<(nat, nat)>, k: nat, n: nat) returns (i: nat)
    requires Tiles(t, k) && k > 0 && t[0].0 <= n < t[k - 1].0 + Pow2(t[k - 1].1)
    ensures i < k && InTile(t, i, n)
    decreases k
  {
    if n >= t[k - 1].0 {
      i := k - 1;
    } else {
      i := FindTile(t, k - 1, n);
    }
  }

  lemma {:induction false} LaterTile(t: seq<(nat, nat)>, k: nat, i: nat, j: nat)
    requires Tiles(t, k) && i < j < k
    ensures t[i].0 + Pow2(t[i].1) <= t[j].0
    decreases j
  {
    if i < j - 1 { LaterTile(t, k, i, j - 1); }
  }

  lemma OneTile(t: seq<(nat, nat)>, k: nat, i: nat, j: nat, n: nat)
    requires Tiles(t, k) && i < k && j < k && InTile(t, i, n) && InTile(t, j, n)
    ensures i == j
  {
    if i < j { LaterTile(t, k, i, j); }
    if j < i { LaterTile(t, k, j, i); }
  }

  /** Every match of 3 to 258 bytes from 1 to 32768 bytes back can be written. */
  lemma EveryMatchHasToken(length: nat, distance: nat) returns (t: Token)
    requires 3 <= length <= 258 && 1 <= distance <= 32768
    ensures t.Match? && 257 <= t.lengthSym <= 285 && t.distSym < 30
    ensures t.lengthMore < Pow2(LEN_EXTRA[t.lengthSym - 257].1) && t.distMore < Pow2(DIST_EXTRA[t.distSym].1)
    ensures Length(t) == length && Distance(t) == distance
  {
    LengthTable();
    DistanceTable();
    var i := FindTile(LEN_EXTRA, 28, length);
    var j := FindTile(DIST_EXTRA, 30, distance);
    t := InflateRoundTrip.Match(257 + i, length - LEN_EXTRA[i].0, j, distance - DIST_EXTRA[j].0);
  }

  /** And in one way only, but for 258, which has a symbol of its own. */
  lemma OneTokenPerMatch(t: Token, u: Token)
    requires Spelled(t) && Spelled(u) && Length(t) == Length(u) && Distance(t) == Distance(u)
    requires t.lengthSym != 285 && u.lengthSym != 285
    ensures t == u
  {
    LengthTable();
    DistanceTable();
    OneTile(LEN_EXTRA, 28, t.lengthSym - 257, u.lengthSym - 257, Length(t));
    OneTile(DIST_EXTRA, 30, t.distSym, u.distSym, Distance(t));
  }

  /** A match whose symbols and extra values are in range. */
  predicate Spelled(t: Token) {
    && t.Match? && 257 <= t.lengthSym <= 285 && t.distSym < 30
    && t.lengthMore < Pow2(LEN_EXTRA[t.lengthSym - 257].1) && t.distMore < Pow2(DIST_EXTRA[t.distSym].1)
  }

  // ----- the order of the code length lengths -----

  /** The repeat symbols and zero come first, then the lengths from 8 on outwards. */
  lemma OrderGoesOutwards()
    ensures |CL_ORDER| == 19 && CL_ORDER[..4] == [16, 17, 18, 0]
    ensures forall i :: 4 <= i < 19 ==> CL_ORDER[i] == if i % 2 == 0 then 8 + (i - 4) / 2 else 8 - (i - 3) / 2
  {}

  // ----- the fixed codes -----

  lemma {:induction false} CountAppend(a: seq<nat>, b: seq<nat>, l: nat)
    ensures Count(a + b, l) == Count(a, l) + Count(b, l)
    decreases |b|
  {
    if b == [] {
      assert a + b == a;
    } else {
      CountAppend(a, b[..|b| - 1], l);
      assert (a + b)[..|a + b| - 1] == a + b[..|b| - 1];
    }
  }

  lemma {:induction false} CountRepeat(x: nat, n: nat, l: nat)
    ensures Count(Repeat(x, n), l) == if x == l then n else 0
    decreases n
  {
    if n > 0 {
      CountRepeat(x, n - 1, l);
      assert Repeat(x, n)[..n - 1] == Repeat(x, n - 1);
    }
  }

  /** How often a length occurs among the first s fixed lengths. */
  lemma FixedCount(s: nat, l: nat)
    requires s <= 288
    ensures Count(FixedLit()[..s], l) ==
      (if l == 8 then (if s <= 144 then s else 144) + (if s <= 280 then 0 else s - 280) else 0)
      + (if l == 9 then (if s <= 144 then 0 else if s <= 256 then s - 144 else 112) else 0)
      + (if l == 7 then (if s <= 256 then 0 else if s <= 280 then s - 256 else 24) else 0)
  {
    hide Count, Repeat;
    var a := if s <= 144 then s else 144;
    var b := if s <= 144 then 0 else if s <= 256 then s - 144 else 112;
    var c := if s <= 256 then 0 else if s <= 280 then s - 256 else 24;
    var d := if s <= 280 then 0 else s - 280;
    assert FixedLit()[..s] == Repeat(8, a) + Repeat(9, b) + Repeat(7, c) + Repeat(8, d);
    CountAppend(Repeat(8, a) + Repeat(9, b) + Repeat(7, c), Repeat(8, d), l);
    CountAppend(Repeat(8, a) + Repeat(9, b), Repeat(7, c), l);
    CountAppend(Repeat(8, a), Repeat(9, b), l);
    CountRepeat(8, a, l);
    CountRepeat(9, b, l);
    CountRepeat(7, c, l);
    CountRepeat(8, d, l);
  }

  lemma FixedFirsts()
    ensures First(FixedLit(), 7) == 0 && First(FixedLit(), 8) == 0x30 && First(FixedLit(), 9) == 0x190
  {
    hide Count, FixedLit;
    assert FixedLit()[..288] == FixedLit();
    forall l: nat | l < 10
      ensures Count(FixedLit(), l) == if l == 7 then 24 else if l == 8 then 152 else if l == 9 then 112 else 0
    {
      FixedCount(288, l);
    }
    assert First(FixedLit(), 2) == 0 && First(FixedLit(), 4) == 0 && First(FixedLit(), 6) == 0;
  }

  /** The fixed code of every literal and length symbol, as section 3.2.6 lists them. */
  lemma FixedCodes(s: nat)
    requires s < 288
    ensures FixedLit()[s] == if s < 144 then 8 else if s < 256 then 9 else if s < 280 then 7 else 8
    ensures Code(FixedLit(), s) ==
            if s < 144 then 0x30 + s else if s < 256 then 0x190 + (s - 144) else if s < 280 then s - 256
            else 0xC0 + (s - 280)
  {
    FixedFirsts();
    FixedCount(s, FixedLit()[s]);
  }

  /** The fixed code of every distance symbol is its number in five bits. */
  lemma FixedDistanceCodes(s: nat)
    requires s < 32
    ensures FixedDist()[s] == 5 && Code(FixedDist(), s) == s
  {
    hide Count;
    assert FixedDist()[..s] == Repeat(5, s);
    CountRepeat(5, s, 5);
    forall l: nat | l < 5 ensures Count(FixedDist(), l) == 0 { CountRepeat(5, 32, l); }
    assert First(FixedDist(), 2) == 0 && First(FixedDist(), 4) == 0;
  }

  // ----- refusals -----

  /** A block of the reserved kind is refused, whatever follows. */
  lemma ReservedKindRefused(final: bool, out: seq<byte>, rest: Source)
    ensures Decompress(Before([final, true, true], rest), out) == Corrupt
  {
    var bits := [final, true, true] + rest.bits;
    assert bits[..1] == [final] && bits[1..][..2] == [true, true] && [true, true][1..] == [true];
    assert Value([true]) == 1 && Value([true, true]) == 3;
  }

  /** A stored block whose second number is not the complement of its length is refused. */
  lemma WrongComplementRefused(pad: seq<bool>, len: nat, other: nat, out: seq<byte>, rest: Source)
    requires |pad| < 8 && |rest.bits| % 8 == 0 && len < 0x1_0000 && other < 0x1_0000 && other != 0xFFFF - len
    ensures Stored(Before(pad + (Lsb(len, 16) + Lsb(other, 16)), rest), out) == Corrupt
  {
    hide TakeBits, Lsb, TakeBytes, Before;
    var x, y := Lsb(len, 16), Lsb(other, 16);
    AlignedAfter(pad, x + y, rest);
    BeforeJoin(x, y, rest);
    Sixteen();
    BitsRoundTrip(len, 16, Before(y, rest));
    BitsRoundTrip(other, 16, rest);
  }

  lemma AlignedAfter(pad: seq<bool>, a: seq<bool>, rest: Source)
    requires |pad| < 8 && |a| == 32 && |rest.bits| % 8 == 0
    ensures Before(pad + a, rest).Aligned() == Before(a, rest)
  {
    var bits := pad + a + rest.bits;
    assert |bits| % 8 == |pad| && bits[|pad|..] == a + rest.bits;
  }

  /** Of the literal symbols, those above 285 are refused. */
  lemma ReservedSymbolRefused(s: nat, out: seq<byte>, lit: seq<nat>, dist: seq<nat>, rest: Source)
    requires Lengths(lit) && NotOversubscribed(lit) && Coded(lit, s) && s > 285
    ensures Block(Before(Word(lit, s), rest), out, lit, dist) == Corrupt
  {
    hide TakeSymbol, NotOversubscribed, Word;
    SymbolRoundTrip(lit, s, rest);
  }

  /** Of the distance symbols, those above 29 are refused. */
  lemma ReservedDistanceRefused(s: nat, dist: seq<nat>, rest: Source)
    requires Lengths(dist) && NotOversubscribed(dist) && Coded(dist, s) && s > 29
    ensures TakeDistance(Before(Word(dist, s), rest), dist) == Corrupt
  {
    hide TakeSymbol, NotOversubscribed, Word;
    SymbolRoundTrip(dist, s, rest);
  }

  /** A code length symbol above 18 is refused. */
  lemma ReservedRunRefused(s: nat, cl: seq<nat>, acc: seq<nat>, total: nat, rest: Source)
    requires Lengths(cl) && NotOversubscribed(cl) && Coded(cl, s) && s > 18 && Lengths(acc) && |acc| < total
    ensures CodeLengths(Before(Word(cl, s), rest), cl, acc, total) == Corrupt
  {
    hide TakeSymbol, NotOversubscribed, Word;
    SymbolRoundTrip(cl, s, rest);
  }
}
