/** How the build matters to the decompressor: a build without overflow checks returns what
    one that lets the bit count wrap often enough returns, whatever often enough is. */
module InflateWraps {
  import opened Bits
  import opened Huffman
  import opened HuffTree
  import opened Inflate

  /** The same unread bits with more wraps to spare. */
  function More(src: Source, j: nat): (r: Source) { Source(src.bits, src.wraps + j) }

  function MoreStep<T>(s: Step<T>, j: nat): (r: Step<T>) {
    match s
    case Done(v, rest) => Done(v, More(rest, j))
    case Corrupt => Corrupt
    case Cut => Cut
  }

  lemma BitsMore(src: Source, n: nat, j: nat)
    ensures TakeBits(More(src, j), n) == MoreStep(TakeBits(src, n), j)
  {}

  lemma SymbolMore(ls: seq<nat>, src: Source, j: nat)
    requires TakeSymbol(ls, src) != Cut
    ensures TakeSymbol(ls, More(src, j)) == MoreStep(TakeSymbol(ls, src), j)
  {
    hide Match, MaxLen, Padded;
  }

  lemma LengthMore(src: Source, sym: nat, j: nat)
    requires 257 <= sym <= 285
    ensures TakeLength(More(src, j), sym) == MoreStep(TakeLength(src, sym), j) && TakeLength(src, sym) != Cut
  {
    hide TakeBits, More;
    BitsMore(src, LEN_EXTRA[sym - 257].1, j);
  }

  lemma DistanceMore(src: Source, dist: seq<nat>, j: nat)
    requires TakeDistance(src, dist) != Cut
    ensures TakeDistance(More(src, j), dist) == MoreStep(TakeDistance(src, dist), j)
  {
    hide TakeBits, TakeSymbol, More;
    SymbolMore(dist, src, j);
    var s := TakeSymbol(dist, src);
    if s.Done? && s.value < 30 {
      BitsMore(s.rest, DIST_EXTRA[s.value].1, j);
    }
  }

  lemma MatchMore(src: Source, out: seq<byte>, sym: nat, dist: seq<nat>, j: nat)
    requires 257 <= sym <= 285 && TakeMatch(src, out, sym, dist) != Cut
    ensures TakeMatch(More(src, j), out, sym, dist) == MoreStep(TakeMatch(src, out, sym, dist), j)
  {
    hide TakeLength, TakeDistance, More, CopyBack;
    LengthMore(src, sym, j);
    var l := TakeLength(src, sym);
    if l.Done? { DistanceMore(l.rest, dist, j); }
  }

  lemma {:induction false} BlockMore(src: Source, out: seq<byte>, lit: seq<nat>, dist: seq<nat>, j: nat)
    requires Block(src, out, lit, dist) != Cut
    ensures Block(More(src, j), out, lit, dist) == MoreStep(Block(src, out, lit, dist), j)
    decreases src.Amount()
  {
    hide TakeSymbol, TakeMatch, More;
    SymbolMore(lit, src, j);
    var s := TakeSymbol(lit, src);
    if s.Done? {
      if s.value < 256 {
        BlockMore(s.rest, out + [s.value], lit, dist, j);
      } else if 257 <= s.value <= 285 {
        MatchMore(s.rest, out, s.value, dist, j);
        var m := TakeMatch(s.rest, out, s.value, dist);
        if m.Done? { BlockMore(m.rest, m.value, lit, dist, j); }
      }
    }
  }

  lemma {:induction false} BytesMore(src: Source, out: seq<byte>, n: nat, j: nat)
    ensures TakeBytes(More(src, j), out, n) == MoreStep(TakeBytes(src, out, n), j)
    ensures TakeBytes(src, out, n) != Cut
    decreases n
  {
    hide TakeBits, More;
    if n > 0 {
      BitsMore(src, 8, j);
      var b := TakeBits(src, 8);
      assert Pow2(8) == 256;
      if b.Done? { BytesMore(b.rest, out + [b.value], n - 1, j); }
    }
  }

  lemma StoredMore(src: Source, out: seq<byte>, j: nat)
    ensures Stored(More(src, j), out) == MoreStep(Stored(src, out), j)
  {
    hide TakeBits, TakeBytes;
    var a := src.Aligned();
    assert More(src, j).Aligned() == More(a, j);
    BitsMore(a, 16, j);
    var b := TakeBits(a, 16);
    if b.Done? {
      BitsMore(b.rest, 16, j);
      var c := TakeBits(b.rest, 16);
      if c.Done? { BytesMore(c.rest, out, b.value, j); }
    }
  }

  lemma {:induction false} ClMore(src: Source, i: nat, n: nat, acc: seq<nat>, j: nat)
    requires i <= n <= 19 && |acc| == 19 && Lengths(acc)
    ensures CodeLengthLengths(More(src, j), i, n, acc) == MoreStep(CodeLengthLengths(src, i, n, acc), j)
    ensures CodeLengthLengths(src, i, n, acc) != Cut
    decreases n - i
  {
    hide TakeBits, More;
    if i < n {
      BitsMore(src, 3, j);
      var b := TakeBits(src, 3);
      assert Pow2(3) == 8;
      if b.Done? { ClMore(b.rest, i + 1, n, acc[CL_ORDER[i] := b.value], j); }
    }
  }

  lemma RunMore(src: Source, sym: nat, acc: seq<nat>, j: nat)
    requires Lengths(acc)
    ensures TakeRun(More(src, j), sym, acc) == MoreStep(TakeRun(src, sym, acc), j)
    ensures TakeRun(src, sym, acc) != Cut
  {
    hide TakeBits, More, Lengths;
    if sym == 16 {
      BitsMore(src, 2, j);
    } else if sym == 17 {
      BitsMore(src, 3, j);
    } else if sym == 18 {
      BitsMore(src, 7, j);
    }
  }

  lemma {:induction false} CodeLengthsMore(src: Source, cl: seq<nat>, acc: seq<nat>, total: nat, j: nat)
    requires Lengths(acc) && CodeLengths(src, cl, acc, total) != Cut
    ensures CodeLengths(More(src, j), cl, acc, total) == MoreStep(CodeLengths(src, cl, acc, total), j)
    decreases src.Amount()
  {
    hide TakeSymbol, TakeRun, More;
    if |acc| < total {
      SymbolMore(cl, src, j);
      var s := TakeSymbol(cl, src);
      if s.Done? {
        RunMore(s.rest, s.value, acc, j);
        var r := TakeRun(s.rest, s.value, acc);
        if r.Done? { CodeLengthsMore(r.rest, cl, r.value, total, j); }
      }
    }
  }

  lemma CountsMore(src: Source, j: nat)
    ensures TakeCounts(More(src, j)) == MoreStep(TakeCounts(src), j)
    ensures TakeCounts(src) != Cut
  {
    hide TakeBits, More;
    BitsMore(src, 5, j);
    var a := TakeBits(src, 5);
    if a.Done? {
      BitsMore(a.rest, 5, j);
      var b := TakeBits(a.rest, 5);
      if b.Done? { BitsMore(b.rest, 4, j); }
    }
  }

  lemma LengthsMore(src: Source, hclen: nat, total: nat, j: nat)
    requires hclen <= 19 && TakeLengths(src, hclen, total) != Cut
    ensures TakeLengths(More(src, j), hclen, total) == MoreStep(TakeLengths(src, hclen, total), j)
  {
    hide CodeLengthLengths, CodeLengths, More;
    ClMore(src, 0, hclen, Repeat(0, 19), j);
    var c := CodeLengthLengths(src, 0, hclen, Repeat(0, 19));
    if c.Done? { CodeLengthsMore(c.rest, c.value, [], total, j); }
  }

  lemma DynamicMore(src: Source, j: nat)
    requires DynamicLengths(src) != Cut
    ensures DynamicLengths(More(src, j)) == MoreStep(DynamicLengths(src), j)
  {
    hide TakeCounts, TakeLengths, More;
    CountsMore(src, j);
    var n := TakeCounts(src);
    if n.Done? { LengthsMore(n.rest, n.value.2, n.value.0 + n.value.1, j); }
  }

  lemma TakeBlockMore(src: Source, out: seq<byte>, btype: nat, j: nat)
    requires TakeBlock(src, out, btype) != Cut
    ensures TakeBlock(More(src, j), out, btype) == MoreStep(TakeBlock(src, out, btype), j)
  {
    hide Stored, Block, DynamicLengths, More, FixedLit, FixedDist;
    if btype == 0 {
      StoredMore(src, out, j);
    } else if btype == 1 {
      BlockMore(src, out, FixedLit(), FixedDist(), j);
    } else if btype == 2 {
      DynamicMore(src, j);
      var t := DynamicLengths(src);
      if t.Done? { BlockMore(t.rest, out, t.value.0, t.value.1, j); }
    }
  }

  /** A stream that ends without another wrap gives the same bytes, or the same refusal,
      however many more wraps there could have been. So a build without overflow checks
      has one result, and it is the checked one wherever that does not stop. */
  lemma {:induction false} DecompressMore(src: Source, out: seq<byte>, j: nat)
    requires Decompress(src, out) != Cut
    ensures Decompress(More(src, j), out) == MoreStep(Decompress(src, out), j)
    decreases src.Amount()
  {
    hide TakeBits, TakeBlock, More;
    BitsMore(src, 1, j);
    var f := TakeBits(src, 1);
    if f.Done? {
      BitsMore(f.rest, 2, j);
      var t := TakeBits(f.rest, 2);
      if t.Done? {
        TakeBlockMore(t.rest, out, t.value, j);
        var b := TakeBlock(t.rest, out, t.value);
        if b.Done? && f.value == 0 { DecompressMore(b.rest, b.value, j); }
      }
    }
  }
}
