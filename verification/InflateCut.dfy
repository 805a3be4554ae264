/** Streams that are cut short: no proper part of a written stream is taken for a whole one
    by a build with overflow checks. */
module InflateCut {
  import opened Basics
  import opened Bits
  import opened Huffman
  import opened HuffTree
  import opened Inflate
  import opened InflateRoundTrip
  import opened InflateStreams

  /** The same source with more bits at its end. */
  function Longer(src: Source, x: seq<bool>): (r: Source) { Source(src.bits + x, src.wraps) }

  /** A reading that ends with what there is ends the same when there is more. */
  ghost predicate Same<T(!new)>(a: Step<T>, b: Step<T>, x: seq<bool>) {
    a.Done? ==> b == Done(a.value, Longer(a.rest, x)) && a.rest.wraps == 0
  }

  lemma BitsLonger(src: Source, n: nat, x: seq<bool>)
    requires src.wraps == 0
    ensures Same(TakeBits(src, n), TakeBits(Longer(src, x), n), x)
  {
    if n <= |src.bits| {
      assert (src.bits + x)[..n] == src.bits[..n] && (src.bits + x)[n..] == src.bits[n..] + x;
    }
  }

  lemma SymbolLonger(ls: seq<nat>, src: Source, x: seq<bool>)
    requires src.wraps == 0 && Lengths(ls) && NotOversubscribed(ls)
    ensures Same(TakeSymbol(ls, src), TakeSymbol(ls, Longer(src, x)), x)
  {
    hide TakeSymbol, NotOversubscribed, Word;
    var t := TakeSymbol(ls, src);
    if t.Done? {
      var w := Word(ls, t.value);
      StartsWithWord(ls, src);
      assert src.bits == w + t.rest.bits;
      SymbolRoundTrip(ls, t.value, Longer(t.rest, x));
      assert w + (t.rest.bits + x) == src.bits + x;
    }
  }

  lemma StartsWithWord(ls: seq<nat>, src: Source)
    requires src.wraps == 0 && TakeSymbol(ls, src).Done?
    ensures var t := TakeSymbol(ls, src); src.bits == Word(ls, t.value) + t.rest.bits && t.rest.wraps == 0
  {
    hide Word, MaxLen;
    var m := MaxLen(ls);
    var s := TakeSymbol(ls, src).value;
    var w := Word(ls, s);
    assert w <= Padded(src.bits, m) && |w| == ls[s] <= |src.bits|;
    assert Padded(src.bits, m)[..|w|] == src.bits[..|w|];
    assert src.bits == src.bits[..|w|] + src.bits[|w|..];
  }

  lemma LengthLonger(src: Source, sym: nat, x: seq<bool>)
    requires src.wraps == 0 && 257 <= sym <= 285
    ensures Same(TakeLength(src, sym), TakeLength(Longer(src, x), sym), x)
  {
    hide TakeBits, Longer;
    BitsLonger(src, LEN_EXTRA[sym - 257].1, x);
  }

  lemma DistanceLonger(src: Source, dist: seq<nat>, x: seq<bool>)
    requires src.wraps == 0 && Lengths(dist) && NotOversubscribed(dist)
    ensures Same(TakeDistance(src, dist), TakeDistance(Longer(src, x), dist), x)
  {
    hide TakeBits, TakeSymbol, Longer, NotOversubscribed;
    SymbolLonger(dist, src, x);
    var s := TakeSymbol(dist, src);
    if s.Done? && s.value < 30 { BitsLonger(s.rest, DIST_EXTRA[s.value].1, x); }
  }

  lemma MatchLonger(src: Source, out: seq<byte>, sym: nat, dist: seq<nat>, x: seq<bool>)
    requires src.wraps == 0 && 257 <= sym <= 285 && Lengths(dist) && NotOversubscribed(dist)
    ensures Same(TakeMatch(src, out, sym, dist), TakeMatch(Longer(src, x), out, sym, dist), x)
  {
    hide TakeLength, TakeDistance, Longer, CopyBack, NotOversubscribed;
    LengthLonger(src, sym, x);
    var l := TakeLength(src, sym);
    if l.Done? { DistanceLonger(l.rest, dist, x); }
  }

  lemma {:induction false} BlockLonger(src: Source, out: seq<byte>, lit: seq<nat>, dist: seq<nat>, x: seq<bool>)
    requires src.wraps == 0 && Usable(lit, dist)
    ensures Same(Block(src, out, lit, dist), Block(Longer(src, x), out, lit, dist), x)
    decreases src.Amount()
  {
    hide TakeSymbol, TakeMatch, Longer, NotOversubscribed;
    SymbolLonger(lit, src, x);
    var s := TakeSymbol(lit, src);
    if s.Done? {
      if s.value < 256 {
        BlockLonger(s.rest, out + [s.value], lit, dist, x);
      } else if 257 <= s.value <= 285 {
        MatchLonger(s.rest, out, s.value, dist, x);
        var m := TakeMatch(s.rest, out, s.value, dist);
        if m.Done? { BlockLonger(m.rest, m.value, lit, dist, x); }
      }
    }
  }

  lemma {:induction false} BytesLonger(src: Source, out: seq<byte>, n: nat, x: seq<bool>)
    requires src.wraps == 0
    ensures Same(TakeBytes(src, out, n), TakeBytes(Longer(src, x), out, n), x)
    decreases n
  {
    hide TakeBits, Longer;
    if n > 0 {
      BitsLonger(src, 8, x);
      var b := TakeBits(src, 8);
      assert Pow2(8) == 256;
      if b.Done? { BytesLonger(b.rest, out + [b.value], n - 1, x); }
    }
  }

  lemma StoredLonger(src: Source, out: seq<byte>, x: seq<bool>)
    requires src.wraps == 0 && |x| % 8 == 0
    ensures Same(Stored(src, out), Stored(Longer(src, x), out), x)
  {
    hide TakeBits, TakeBytes;
    var a := src.Aligned();
    assert Longer(src, x).Aligned() == Longer(a, x) by {
      var k := |src.bits| % 8;
      assert |src.bits + x| % 8 == k;
      assert (src.bits + x)[k..] == src.bits[k..] + x;
    }
    BitsLonger(a, 16, x);
    var b := TakeBits(a, 16);
    if b.Done? {
      BitsLonger(b.rest, 16, x);
      var c := TakeBits(b.rest, 16);
      if c.Done? { BytesLonger(c.rest, out, b.value, x); }
    }
  }

  lemma {:induction false} ClLonger(src: Source, i: nat, n: nat, acc: seq<nat>, x: seq<bool>)
    requires src.wraps == 0 && i <= n <= 19 && |acc| == 19 && Lengths(acc)
    ensures Same(CodeLengthLengths(src, i, n, acc), CodeLengthLengths(Longer(src, x), i, n, acc), x)
    decreases n - i
  {
    hide TakeBits, Longer;
    if i < n {
      BitsLonger(src, 3, x);
      var b := TakeBits(src, 3);
      assert Pow2(3) == 8;
      if b.Done? { ClLonger(b.rest, i + 1, n, acc[CL_ORDER[i] := b.value], x); }
    }
  }

  lemma RunLonger(src: Source, sym: nat, acc: seq<nat>, x: seq<bool>)
    requires src.wraps == 0 && Lengths(acc)
    ensures Same(TakeRun(src, sym, acc), TakeRun(Longer(src, x), sym, acc), x)
  {
    hide TakeBits, Longer, Lengths;
    if sym == 16 {
      BitsLonger(src, 2, x);
    } else if sym == 17 {
      BitsLonger(src, 3, x);
    } else if sym == 18 {
      BitsLonger(src, 7, x);
    }
  }

  lemma {:induction false} CodeLengthsLonger(src: Source, cl: seq<nat>, acc: seq<nat>, total: nat, x: seq<bool>)
    requires src.wraps == 0 && Lengths(acc) && Lengths(cl) && NotOversubscribed(cl)
    ensures Same(CodeLengths(src, cl, acc, total), CodeLengths(Longer(src, x), cl, acc, total), x)
    decreases src.Amount()
  {
    hide TakeSymbol, TakeRun, Longer, NotOversubscribed;
    if |acc| < total {
      SymbolLonger(cl, src, x);
      var s := TakeSymbol(cl, src);
      if s.Done? {
        RunLonger(s.rest, s.value, acc, x);
        var r := TakeRun(s.rest, s.value, acc);
        if r.Done? { CodeLengthsLonger(r.rest, cl, r.value, total, x); }
      }
    }
  }

  lemma CountsLonger(src: Source, x: seq<bool>)
    requires src.wraps == 0
    ensures Same(TakeCounts(src), TakeCounts(Longer(src, x)), x)
  {
    hide TakeBits, Longer;
    BitsLonger(src, 5, x);
    var a := TakeBits(src, 5);
    if a.Done? {
      BitsLonger(a.rest, 5, x);
      var b := TakeBits(a.rest, 5);
      if b.Done? { BitsLonger(b.rest, 4, x); }
    }
  }

  /** The front of a written header is read as the header is, or not at all. */
  lemma HeaderLonger(h: Header, src: Source, rest: Source, x: seq<bool>)
    requires HeaderWritable(h) && src.wraps == 0 && Longer(src, x) == Before(WriteHeader(h), rest)
    ensures Same(DynamicLengths(src), DynamicLengths(Longer(src, x)), x)
  {
    hide TakeCounts, CodeLengthLengths, CodeLengths, Longer, Before, WriteCl, WriteRuns, NotOversubscribed,
         RunsWritable, Lsb;
    var total := h.hlit + h.hdist;
    var a, b := WriteCl(h.cl, 0, h.hclen), WriteRuns(h.runs, h.cl, [], total);
    CountsRoundTrip(h, a + b, rest);
    CountsLonger(src, x);
    var n := TakeCounts(src);
    if n.Done? {
      BeforeJoin(a, b, rest);
      ClFresh(h.cl, h.hclen, Before(b, rest));
      ClLonger(n.rest, 0, h.hclen, Repeat(0, 19), x);
      var c := CodeLengthLengths(n.rest, 0, h.hclen, Repeat(0, 19));
      if c.Done? { CodeLengthsLonger(c.rest, h.cl, [], total, x); }
    }
  }

  lemma ClFresh(cl: seq<nat>, n: nat, rest: Source)
    requires ClWritable(cl, n)
    ensures CodeLengthLengths(Before(WriteCl(cl, 0, n), rest), 0, n, Repeat(0, 19)) == Done(cl, rest)
  {
    ClRoundTrip(cl, 0, n, Repeat(0, 19), rest);
  }

  /** The front of a written block is read as the block is, or not at all. */
  lemma ChunkLonger(c: Chunk, pos: nat, out: seq<byte>, src: Source, rest: Source, x: seq<bool>)
    requires ChunkWritable(c, pos) && src.wraps == 0 && |x| % 8 == 0
    requires Longer(src, x) == Before(WriteChunk(c, pos), rest)
    ensures Same(TakeBlock(src, out, Kind(c)), TakeBlock(Longer(src, x), out, Kind(c)), x)
  {
    hide Stored, Block, DynamicLengths, Longer, Before, WriteTokens, FixedLit, FixedDist, LitOf, DistOf,
         HeaderWritable, AllWritable, WriteHeader;
    match c
    case Plain(_, _) => StoredLonger(src, out, x);
    case Fixed(_) =>
      FixedCodesComplete();
      BlockLonger(src, out, FixedLit(), FixedDist(), x);
    case Dynamic(h, ts) =>
      var tokens := WriteTokens(ts, LitOf(h), DistOf(h));
      BeforeJoin(WriteHeader(h), tokens, rest);
      HeaderRoundTrip(h, Before(tokens, rest));
      HeaderLonger(h, src, Before(tokens, rest), x);
      var t := DynamicLengths(src);
      if t.Done? { BlockLonger(t.rest, out, LitOf(h), DistOf(h), x); }
  }

  lemma LongerIsBefore(src: Source, x: seq<bool>, a: seq<bool>, rest: Source)
    requires src.bits + x == a + rest.bits && src.wraps == rest.wraps
    ensures Longer(src, x) == Before(a, rest)
  {}

  lemma LastBits(r: seq<bool>, x: seq<bool>, more: seq<bool>, pad: seq<bool>)
    requires r + x == more + pad && |pad| < 8 && |x| % 8 == 0 && x != []
    ensures |r| < |more|
  {
    assert |r| + |x| == |more| + |pad|;
  }

  /** What is left of a stream that is cut short is refused, or stops the build. */
  lemma {:induction false} CutRefused(cs: seq<Chunk>, pos: nat, out: seq<byte>,
                                      p: seq<bool>, x: seq<bool>, pad: seq<bool>)
    requires cs != [] && StreamWritable(cs, pos) && WriteStream(cs, pos) + pad == p + x
    requires |pad| < 8 && |x| % 8 == 0 && x != [] && (pos + |p|) % 8 == 0
    ensures !Decompress(Source(p, 0), out).Done?
    decreases |cs|
  {
    hide TakeBits, TakeBlock, Before, ChunkWritable, WriteChunk, ExpandChunk, KindBits, Kind;
    var c, src := cs[0], Source(p, 0);
    var end := ChunkEnd(c, pos);
    var body, more, rest := WriteChunk(c, pos), WriteStream(cs[1..], end), Source(pad, 0);
    var left := Before(more, rest);
    StreamParts([|cs| == 1], KindBits(c), body, more, rest);
    LongerIsBefore(src, x, WriteStream(cs, pos), rest);
    KindRoundTrip(c, |cs| == 1, Before(body, left));
    BitsLonger(src, 1, x);
    var f := TakeBits(src, 1);
    if f.Done? {
      BitsLonger(f.rest, 2, x);
      var k := TakeBits(f.rest, 2);
      if k.Done? {
        ChunkLonger(c, pos, out, k.rest, left, x);
        BeforeBits(more, rest);
        Positions(pos, |p|, |x|, |body|, |more|, |pad|);
        ChunkRoundTrip(c, pos, out, left);
        var b := TakeBlock(k.rest, out, Kind(c));
        if b.Done? {
          assert b.rest.bits + x == more + pad;
          LastBits(b.rest.bits, x, more, pad);
          if |cs| > 1 { CutRefused(cs[1..], end, b.value, b.rest.bits, x, pad); }
        }
      }
    }
  }

  lemma Positions(pos: nat, p: nat, x: nat, body: nat, more: nat, pad: nat)
    requires p + x == 3 + body + more + pad && x % 8 == 0 && (pos + p) % 8 == 0
    ensures (pos + 3 + body + (more + pad)) % 8 == 0
  {}

  /** The bytes of a stream, but for the last of them or more, are never taken for a stream. */
  lemma TruncatedIsRefused(cs: seq<Chunk>, pad: seq<bool>, data: seq<byte>, k: nat)
    requires cs != [] && StreamWritable(cs, 0) && |pad| < 8 && Stream(data) == WriteStream(cs, 0) + pad && k < |data|
    ensures !Decompress(Source(Stream(data[..k]), 0), []).Done?
  {
    hide StreamWritable, WriteStream, Decompress, Stream;
    StreamJoin(data[..k], data[k..]);
    assert data[..k] + data[k..] == data;
    CutRefused(cs, 0, [], Stream(data[..k]), Stream(data[k..]), pad);
  }

  lemma {:induction false} StreamJoin(a: seq<byte>, b: seq<byte>)
    ensures Stream(a + b) == Stream(a) + Stream(b)
    decreases |a|
  {
    if a == [] {
      assert a + b == b;
    } else {
      assert (a + b)[1..] == a[1..] + b;
      StreamJoin(a[1..], b);
    }
  }
}
