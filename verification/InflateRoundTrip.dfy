/** What the decompressor is for: it undoes compression. Blocks are written as
    literals and matches in canonical Huffman codes and read back. */
module InflateRoundTrip {
  import opened Basics
  import opened Bits
  import opened Huffman
  import opened HuffTree
  import opened Inflate

  /** A literal byte, or a match given by its length and distance symbols and
      the values of their extra bits. */
  datatype Token =
    | Literal(b: byte)
    | Match(lengthSym: nat, lengthMore: nat, distSym: nat, distMore: nat)

  /** The token can be written: its symbols have codes and its extra values fit. */
  predicate Writable(t: Token, lit: seq<nat>, dist: seq<nat>) {
    match t
    case Literal(b) => Coded(lit, b)
    case Match(ls, lm, ds, dm) =>
      && 257 <= ls <= 285 && Coded(lit, ls) && lm < Pow2(LEN_EXTRA[ls - 257].1)
      && ds < 30 && Coded(dist, ds) && dm < Pow2(DIST_EXTRA[ds].1)
  }

  predicate AllWritable(ts: seq<Token>, lit: seq<nat>, dist: seq<nat>) {
    forall t :: t in ts ==> Writable(t, lit, dist)
  }

  function Distance(t: Token): (d: nat)
    requires t.Match? && t.distSym < 30
  {
    DIST_EXTRA[t.distSym].0 + t.distMore
  }

  function Length(t: Token): (d: nat)
    requires t.Match? && 257 <= t.lengthSym <= 285
  {
    LEN_EXTRA[t.lengthSym - 257].0 + t.lengthMore
  }

  function WriteToken(t: Token, lit: seq<nat>, dist: seq<nat>): (b: seq<bool>)
    requires Writable(t, lit, dist)
  {
    match t
    case Literal(b) => Word(lit, b)
    case Match(ls, lm, ds, dm) =>
      Word(lit, ls) + (Lsb(lm, LEN_EXTRA[ls - 257].1) + (Word(dist, ds) + Lsb(dm, DIST_EXTRA[ds].1)))
  }

  /** What the tokens stand for after `out`, or nothing when a match reaches
      back before the start. */
  function Expand(ts: seq<Token>, out: seq<byte>, lit: seq<nat>, dist: seq<nat>): (r: Option<seq<byte>>)
    requires AllWritable(ts, lit, dist)
  {
    if ts == [] then Some(out)
    else
      assert ts[0] in ts;
      match ts[0]
      case Literal(b) => Expand(ts[1..], out + [b], lit, dist)
      case Match(_, _, _, _) =>
        if 1 <= Distance(ts[0]) <= |out|
        then Expand(ts[1..], CopyBack(out, Distance(ts[0]), Length(ts[0])), lit, dist)
        else None
  }

  function WriteTokens(ts: seq<Token>, lit: seq<nat>, dist: seq<nat>): (b: seq<bool>)
    requires AllWritable(ts, lit, dist)
    requires Coded(lit, 256)
  {
    if ts == [] then Word(lit, 256) else WriteToken(ts[0], lit, dist) + WriteTokens(ts[1..], lit, dist)
  }

  predicate Usable(lit: seq<nat>, dist: seq<nat>) {
    && Lengths(lit) && Lengths(dist) && NotOversubscribed(lit) && NotOversubscribed(dist)
    && Coded(lit, 256)
  }

  lemma BitsRoundTrip(v: nat, n: nat, rest: Source)
    requires v < Pow2(n)
    ensures TakeBits(Before(Lsb(v, n), rest), n) == Done(v, rest)
  {
    hide Lsb, Value, Low, Pow2;
    var bits := Lsb(v, n) + rest.bits;
    assert bits[..n] == Lsb(v, n) && bits[n..] == rest.bits;
    ValueOfLsb(v, n);
    LowOfSmall(v, n);
  }

  lemma BeforeJoin(a: seq<bool>, b: seq<bool>, rest: Source)
    ensures Before(a + b, rest) == Before(a, Before(b, rest))
  {
    Assoc(a, b, rest.bits);
  }

  lemma LengthRoundTrip(t: Token, lit: seq<nat>, dist: seq<nat>, rest: Source)
    requires t.Match? && Writable(t, lit, dist)
    ensures TakeLength(Before(Lsb(t.lengthMore, LEN_EXTRA[t.lengthSym - 257].1), rest), t.lengthSym)
            == Done(Length(t), rest)
  {
    hide TakeBits, Before;
    BitsRoundTrip(t.lengthMore, LEN_EXTRA[t.lengthSym - 257].1, rest);
  }

  lemma DistanceRoundTrip(t: Token, lit: seq<nat>, dist: seq<nat>, rest: Source)
    requires t.Match? && Writable(t, lit, dist) && Usable(lit, dist)
    ensures TakeDistance(Before(Word(dist, t.distSym), Before(Lsb(t.distMore, DIST_EXTRA[t.distSym].1), rest)), dist)
            == Done(Distance(t), rest)
  {
    hide TakeBits, TakeSymbol, NotOversubscribed, Before, Word, Lsb;
    SymbolRoundTrip(dist, t.distSym, Before(Lsb(t.distMore, DIST_EXTRA[t.distSym].1), rest));
    BitsRoundTrip(t.distMore, DIST_EXTRA[t.distSym].1, rest);
  }

  /** A written match, part by part. */
  lemma MatchParts(t: Token, lit: seq<nat>, dist: seq<nat>, rest: Source)
    requires t.Match? && Writable(t, lit, dist)
    ensures Before(WriteToken(t, lit, dist), rest) ==
      Before(Word(lit, t.lengthSym), Before(Lsb(t.lengthMore, LEN_EXTRA[t.lengthSym - 257].1),
        Before(Word(dist, t.distSym), Before(Lsb(t.distMore, DIST_EXTRA[t.distSym].1), rest))))
  {
    hide Before, Word, Lsb;
    var a, e := Word(lit, t.lengthSym), Lsb(t.lengthMore, LEN_EXTRA[t.lengthSym - 257].1);
    var d, f := Word(dist, t.distSym), Lsb(t.distMore, DIST_EXTRA[t.distSym].1);
    BeforeJoin(a, e + (d + f), rest);
    BeforeJoin(e, d + f, rest);
    BeforeJoin(d, f, rest);
  }

  lemma MatchRoundTrip(t: Token, out: seq<byte>, lit: seq<nat>, dist: seq<nat>, rest: Source)
    requires t.Match? && Writable(t, lit, dist) && Usable(lit, dist)
    ensures var s := TakeSymbol(lit, Before(WriteToken(t, lit, dist), rest));
            && s.Done? && s.value == t.lengthSym
            && TakeMatch(s.rest, out, t.lengthSym, dist) ==
               if 1 <= Distance(t) <= |out| then Done(CopyBack(out, Distance(t), Length(t)), rest) else Corrupt
  {
    hide TakeSymbol, TakeLength, TakeDistance, NotOversubscribed, Length, Distance, Before, Word, Lsb, WriteToken;
    MatchParts(t, lit, dist, rest);
    var d := Before(Word(dist, t.distSym), Before(Lsb(t.distMore, DIST_EXTRA[t.distSym].1), rest));
    SymbolRoundTrip(lit, t.lengthSym, Before(Lsb(t.lengthMore, LEN_EXTRA[t.lengthSym - 257].1), d));
    LengthRoundTrip(t, lit, dist, d);
    DistanceRoundTrip(t, lit, dist, rest);
  }

  /** Reading back a block gives what its tokens stand for, and is refused
      exactly when a match reaches back too far. */
  lemma {:induction false} BlockRoundTrip(ts: seq<Token>, out: seq<byte>, lit: seq<nat>, dist: seq<nat>, rest: Source)
    requires AllWritable(ts, lit, dist)
    requires Usable(lit, dist)
    ensures Block(Before(WriteTokens(ts, lit, dist), rest), out, lit, dist) ==
            match Expand(ts, out, lit, dist)
            case Some(r) => Done(r, rest)
            case None => Corrupt
    decreases |ts|
  {
    hide TakeSymbol, TakeMatch, NotOversubscribed, WriteToken, Distance, Length, Before, Word;
    if ts == [] {
      SymbolRoundTrip(lit, 256, rest);
    } else {
      var t, more := ts[0], Before(WriteTokens(ts[1..], lit, dist), rest);
      BeforeJoin(WriteToken(t, lit, dist), WriteTokens(ts[1..], lit, dist), rest);
      match t {
        case Literal(b) =>
          assert WriteToken(t, lit, dist) == Word(lit, b) by { WriteLiteral(t, lit, dist); }
          SymbolRoundTrip(lit, b, more);
          BlockRoundTrip(ts[1..], out + [b], lit, dist, rest);
        case Match(_, _, _, _) =>
          MatchRoundTrip(t, out, lit, dist, more);
          if 1 <= Distance(t) <= |out| {
            BlockRoundTrip(ts[1..], CopyBack(out, Distance(t), Length(t)), lit, dist, rest);
          }
      }
    }
  }

  lemma WriteLiteral(t: Token, lit: seq<nat>, dist: seq<nat>)
    requires t.Literal? && Writable(t, lit, dist)
    ensures WriteToken(t, lit, dist) == Word(lit, t.b)
  {}

  // ----- the fixed codes -----

  lemma {:induction false} KraftAppend(a: seq<nat>, b: seq<nat>, l: nat)
    requires l <= MAX_LEN
    ensures Kraft(a + b, l) == Kraft(a, l) + Kraft(b, l)
  {
    if b == [] {
      assert a + b == a;
    } else {
      KraftAppend(a, b[..|b| - 1], l);
      assert (a + b)[..|a + b| - 1] == a + b[..|b| - 1];
    }
  }

  lemma {:induction false} KraftRepeat(x: nat, n: nat)
    requires 0 < x <= MAX_LEN
    ensures Kraft(Repeat(x, n), MAX_LEN) == n * Pow2(MAX_LEN - x)
  {
    if n > 0 {
      KraftRepeat(x, n - 1);
      assert Repeat(x, n)[..n - 1] == Repeat(x, n - 1);
      assert n * Pow2(MAX_LEN - x) == (n - 1) * Pow2(MAX_LEN - x) + Pow2(MAX_LEN - x);
    }
  }

  /** The fixed codes use the code space completely and no more. */
  lemma FixedCodesComplete()
    ensures Kraft(FixedLit(), MAX_LEN) == Pow2(MAX_LEN) && Kraft(FixedDist(), MAX_LEN) == Pow2(MAX_LEN)
    ensures Usable(FixedLit(), FixedDist())
  {
    hide Kraft, Repeat;
    assert Pow2(6) == 64 && Pow2(7) == 128 && Pow2(8) == 256 && Pow2(10) == 1024 && Pow2(15) == 32768;
    KraftAppend(Repeat(8, 144) + Repeat(9, 112) + Repeat(7, 24), Repeat(8, 8), MAX_LEN);
    KraftAppend(Repeat(8, 144) + Repeat(9, 112), Repeat(7, 24), MAX_LEN);
    KraftAppend(Repeat(8, 144), Repeat(9, 112), MAX_LEN);
    KraftRepeat(8, 144);
    KraftRepeat(9, 112);
    KraftRepeat(7, 24);
    KraftRepeat(8, 8);
    KraftRepeat(5, 32);
  }

  lemma FixedHasEnd()
    ensures Coded(FixedLit(), 256)
  {}

  /** A final fixed-code block cut after five zero bits: the end marker, whose code is seven
      zeros, is read past the end. With overflow checks that stops the decompressor;
      without them it returns no bytes, and thinks that almost 2 to the 32 bits are left. */
  lemma CutExample()
    ensures Decompress(Source(Stream([3]), 0), []) == Cut
    ensures Decompress(Source(Stream([3]), 1), []) == Done([], Source(Lsb(0, 0x1_0000_0000 - 2), 0))
  {
    hide FixedLit, FixedDist, TakeSymbol, DynamicLengths, Stored, Stream, Lsb, Value;
    var bits := Stream([3]);
    ThreeBits();
    assert bits[..1] == [true] && bits[1..][..2] == [true, false];
    assert bits[1..][2..] == [false, false, false, false, false];
    EndMarkerCut(bits[1..][2..], 0);
    EndMarkerCut(bits[1..][2..], 1);
  }

  lemma ThreeBits()
    ensures Stream([3]) == [true, true, false, false, false, false, false, false]
    ensures Value([true]) == 1 && Value([true, false]) == 1
  {
    assert Stream([3]) == Lsb(3, 8) + Stream([]);
    assert Lsb(3, 8) == [true, true, false, false, false, false, false, false];
  }

  lemma EndMarkerCut(bits: seq<bool>, wraps: nat)
    requires bits == [false, false, false, false, false]
    ensures TakeSymbol(FixedLit(), Source(bits, wraps)) ==
            if wraps == 0 then Cut else Done(256, Source(Lsb(0, WRAP - 2), wraps - 1))
  {
    FixedCodesComplete();
    hide FixedLit, Kraft, Word, Huffman.Match, MaxLen, Coded, Code, First, Count, Lsb;
    assert FixedLit()[256] == 7 && MaxLen(FixedLit()) == 9 by { FixedShape(); }
    EndMarkerWord();
    PaddedEnd(bits);
    MatchIsWord(FixedLit(), 256, Padded(bits, 9));
  }

  lemma PaddedEnd(bits: seq<bool>)
    requires bits == [false, false, false, false, false]
    ensures [false, false, false, false, false, false, false] <= Padded(bits, 9)
  {
    assert Lsb(0, 4) == [false, false, false, false];
  }

  lemma FixedShape()
    ensures FixedLit()[256] == 7 && MaxLen(FixedLit()) == 9
    ensures forall i :: 0 <= i < 288 ==> 7 <= FixedLit()[i] <= 9
    ensures forall i :: 0 <= i < 256 ==> FixedLit()[i] != 7
  {
    assert FixedLit()[200] == 9;
  }

  lemma {:induction false} CountNone(ls: seq<nat>, l: nat)
    requires forall i :: 0 <= i < |ls| ==> ls[i] != l
    ensures Count(ls, l) == 0
  {
    if ls != [] { CountNone(ls[..|ls| - 1], l); }
  }

  lemma EndMarkerWord()
    ensures Coded(FixedLit(), 256) && Word(FixedLit(), 256) == [false, false, false, false, false, false, false]
  {
    FixedShape();
    hide FixedLit, Count;
    forall l: nat | l < 7 ensures Count(FixedLit(), l) == 0 { CountNone(FixedLit(), l); }
    CountNone(FixedLit()[..256], 7);
    assert First(FixedLit(), 7) == 0;
    assert Code(FixedLit(), 256) == 0;
  }
}
