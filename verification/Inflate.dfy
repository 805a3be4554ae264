/** The deflate decompressor of the image viewer (section 3.2 of RFC 1951): a
    decoder over bit lists, and the reader-driven code that computes it. */
module Inflate {
  import opened Bits
  import opened Huffman
  import opened HuffTree

  const LEN_EXTRA: seq<(nat, nat)> := [
    (3,0), (4,0), (5,0), (6,0), (7,0), (8,0), (9,0), (10,0),
    (11,1), (13,1), (15,1), (17,1), (19,2), (23,2), (27,2), (31,2),
    (35,3), (43,3), (51,3), (59,3), (67,4), (83,4), (99,4), (115,4),
    (131,5), (163,5), (195,5), (227,5), (258,0)]

  const DIST_EXTRA: seq<(nat, nat)> := [
    (1,0), (2,0), (3,0), (4,0), (5,1), (7,1), (9,2), (13,2),
    (17,3), (25,3), (33,4), (49,4), (65,5), (97,5), (129,6), (193,6),
    (257,7), (385,7), (513,8), (769,8), (1025,9), (1537,9), (2049,10), (3073,10),
    (4097,11), (6145,11), (8193,12), (12289,12), (16385,13), (24577,13)]

  const CL_ORDER: seq<nat> := [16, 17, 18, 0, 8, 7, 9, 6, 10, 5, 11, 4, 12, 3, 13, 2, 14, 1, 15]

  // ----- the decoder over bit lists -----

  /** Appends `n` bytes, each a copy of the one `dist` places back; the copy may
      overlap what it writes. */
  function CopyBack(out: seq<byte>, dist: nat, n: nat): (r: seq<byte>)
    requires 1 <= dist <= |out|
    ensures |r| == |out| + n && out <= r
  {
    if n == 0 then out
    else
      var c := CopyBack(out, dist, n - 1);
      c + [c[|c| - dist]]
  }

  /** The match length that a length symbol and its extra bits spell. */
  function TakeLength(src: Source, sym: nat): (r: Step<nat>)
    requires 257 <= sym <= 285
    ensures r.Done? ==> r.rest.Amount() <= src.Amount()
  {
    var (base, extra) := LEN_EXTRA[sym - 257];
    var (more, b1) :- TakeBits(src, extra);
    Done(base + more, b1)
  }

  /** A distance symbol and its extra bits. */
  function TakeDistance(src: Source, dist: seq<nat>): (r: Step<nat>)
    ensures r.Done? ==> r.rest.Amount() < src.Amount()
  {
    var (sym, b1) :- TakeSymbol(dist, src);
    if sym >= 30 then Corrupt
    else
      var (base, extra) := DIST_EXTRA[sym];
      var (more, b2) :- TakeBits(b1, extra);
      Done(base + more, b2)
  }

  function TakeMatch(src: Source, out: seq<byte>, sym: nat, dist: seq<nat>): (r: Step<seq<byte>>)
    requires 257 <= sym <= 285
    ensures r.Done? ==> r.rest.Amount() < src.Amount()
  {
    var (length, b1) :- TakeLength(src, sym);
    var (distance, b2) :- TakeDistance(b1, dist);
    if 1 <= distance <= |out| then Done(CopyBack(out, distance, length), b2) else Corrupt
  }

  /** The symbols of one Huffman block, up to its end marker 256. */
  function Block(src: Source, out: seq<byte>, lit: seq<nat>, dist: seq<nat>): (r: Step<seq<byte>>)
    ensures r.Done? ==> r.rest.Amount() < src.Amount()
    decreases src.Amount()
  {
    var (sym, b1) :- TakeSymbol(lit, src);
    if sym < 256 then Block(b1, out + [sym], lit, dist)
    else if sym == 256 then Done(out, b1)
    else if sym <= 285 then
      var (out', b2) :- TakeMatch(b1, out, sym, dist);
      Block(b2, out', lit, dist)
    else Corrupt
  }

  function TakeBytes(src: Source, out: seq<byte>, n: nat): (r: Step<seq<byte>>)
    ensures r.Done? ==> r.rest.Amount() + 8 * n == src.Amount() && |r.value| == |out| + n
    decreases n
  {
    if n == 0 then Done(out, src)
    else
      var (b, b1) :- TakeBits(src, 8);
      assert Pow2(8) == 256;
      TakeBytes(b1, out + [b], n - 1)
  }

  /** A stored block: byte-aligned length, its complement, and the bytes. */
  function Stored(src: Source, out: seq<byte>): (r: Step<seq<byte>>)
    ensures r.Done? ==> r.rest.Amount() < src.Amount()
  {
    var (len, b1) :- TakeBits(src.Aligned(), 16);
    var (nlen, b2) :- TakeBits(b1, 16);
    if len + nlen != 0xFFFF then Corrupt else TakeBytes(b2, out, len)
  }

  /** The code length code lengths, three bits each, in their fixed order. */
  function CodeLengthLengths(src: Source, i: nat, n: nat, acc: seq<nat>): (r: Step<seq<nat>>)
    requires i <= n <= 19 && |acc| == 19 && Lengths(acc)
    ensures r.Done? ==> |r.value| == 19 && Lengths(r.value) && r.rest.Amount() <= src.Amount()
    decreases n - i
  {
    if i == n then Done(acc, src)
    else
      var (l, b1) :- TakeBits(src, 3);
      assert Pow2(3) == 8;
      CodeLengthLengths(b1, i + 1, n, acc[CL_ORDER[i] := l])
  }

  function Repeat(x: nat, n: nat): (r: seq<nat>)
    ensures |r| == n && forall i :: 0 <= i < n ==> r[i] == x
  {
    seq(n, _ => x)
  }

  /** What one code length symbol appends. */
  function TakeRun(src: Source, sym: nat, acc: seq<nat>): (r: Step<seq<nat>>)
    requires Lengths(acc)
    ensures r.Done? ==> Lengths(r.value) && |acc| < |r.value| <= |acc| + 138 && r.rest.Amount() <= src.Amount()
  {
    assert Pow2(2) == 4 && Pow2(3) == 8 && Pow2(7) == 128;
    if sym <= 15 then Done(acc + [sym], src)
    else if sym == 16 then
      var (n, b1) :- TakeBits(src, 2);
      Done(acc + Repeat(if acc == [] then 0 else acc[|acc| - 1], n + 3), b1)
    else if sym == 17 then
      var (n, b1) :- TakeBits(src, 3);
      Done(acc + Repeat(0, n + 3), b1)
    else if sym == 18 then
      var (n, b1) :- TakeBits(src, 7);
      Done(acc + Repeat(0, n + 11), b1)
    else Corrupt
  }

  function CodeLengths(src: Source, cl: seq<nat>, acc: seq<nat>, total: nat): (r: Step<seq<nat>>)
    requires Lengths(acc)
    ensures r.Done? ==> Lengths(r.value) && |r.value| >= total && r.rest.Amount() <= src.Amount()
    decreases src.Amount()
  {
    if |acc| >= total then Done(acc, src)
    else
      var (sym, b1) :- TakeSymbol(cl, src);
      var (acc', b2) :- TakeRun(b1, sym, acc);
      CodeLengths(b2, cl, acc', total)
  }

  ghost predicate TreeLengths(t: (seq<nat>, seq<nat>)) {
    Lengths(t.0) && Lengths(t.1) && |t.0| <= 288 && |t.1| <= 32
  }

  /** How many literal, distance and code length codes a dynamic block has. */
  function TakeCounts(src: Source): (r: Step<(nat, nat, nat)>)
    ensures r.Done? ==> r.rest.Amount() <= src.Amount()
    ensures r.Done? ==> 257 <= r.value.0 <= 288 && 1 <= r.value.1 <= 32 && 4 <= r.value.2 <= 19
  {
    assert Pow2(5) == 32 && Pow2(4) == 16;
    var (hlit, b1) :- TakeBits(src, 5);
    var (hdist, b2) :- TakeBits(b1, 5);
    var (hclen, b3) :- TakeBits(b2, 4);
    Done((hlit + 257, hdist + 1, hclen + 4), b3)
  }

  /** All code lengths of a dynamic block, themselves Huffman coded. */
  function TakeLengths(src: Source, hclen: nat, total: nat): (r: Step<seq<nat>>)
    requires hclen <= 19
    ensures r.Done? ==> r.rest.Amount() <= src.Amount() && Lengths(r.value) && |r.value| >= total
  {
    var (cl, b1) :- CodeLengthLengths(src, 0, hclen, Repeat(0, 19));
    CodeLengths(b1, cl, [], total)
  }

  /** The header of a dynamic block: literal and distance code lengths. */
  function DynamicLengths(src: Source): (r: Step<(seq<nat>, seq<nat>)>)
    ensures r.Done? ==> r.rest.Amount() <= src.Amount() && TreeLengths(r.value)
  {
    var (n, b1) :- TakeCounts(src);
    var (ls, b2) :- TakeLengths(b1, n.2, n.0 + n.1);
    Done((ls[..n.0], ls[n.0..n.0 + n.1]), b2)
  }

  function FixedLit(): (ls: seq<nat>)
    ensures |ls| == 288 && Lengths(ls)
  {
    Repeat(8, 144) + Repeat(9, 112) + Repeat(7, 24) + Repeat(8, 8)
  }

  function FixedDist(): (ls: seq<nat>)
    ensures |ls| == 32 && Lengths(ls)
  {
    Repeat(5, 32)
  }

  function TakeBlock(src: Source, out: seq<byte>, btype: nat): (r: Step<seq<byte>>)
    ensures r.Done? ==> r.rest.Amount() <= src.Amount()
  {
    if btype == 0 then Stored(src, out)
    else if btype == 1 then Block(src, out, FixedLit(), FixedDist())
    else if btype == 2 then
      var (trees, b1) :- DynamicLengths(src);
      Block(b1, out, trees.0, trees.1)
    else Corrupt
  }

  /** A whole deflate stream: blocks up to the one marked final. */
  function Decompress(src: Source, out: seq<byte>): (r: Step<seq<byte>>)
    ensures r.Done? ==> r.rest.Amount() <= src.Amount()
    decreases src.Amount()
  {
    var (final, b1) :- TakeBits(src, 1);
    var (btype, b2) :- TakeBits(b1, 2);
    var (out', b3) :- TakeBlock(b2, out, btype);
    if final != 0 then Done(out', b3) else Decompress(b3, out')
  }

  // ----- the code -----

  lemma MulGrows(d: int, p: nat)
    ensures d >= 1 ==> d * p >= p
    ensures d <= -1 ==> d * p + p <= 0
  {
    if d >= 1 {
      assert d * p == p + (d - 1) * p;
    } else if d <= -1 {
      assert d * p == (d + 1) * p - p;
    }
  }

  lemma DivisionIsUnique(a: nat, p: nat, q: nat, r: nat)
    requires p >= 1 && r < p && a == q * p + r
    ensures a / p == q && a % p == r
  {
    var d := a / p - q;
    assert d * p == (a / p) * p - q * p;
    MulGrows(d, p);
  }

  /** Reading `dist` back from the end is reading inside the last period. */
  lemma {:induction false} CopyIsPeriodic(out: seq<byte>, dist: nat, n: nat, j: nat)
    requires 1 <= dist <= |out| && j < dist + n
    ensures CopyBack(out, dist, n)[|out| - dist + j] == out[|out| - dist + j % dist]
    decreases n
  {
    if j < dist {
      DivisionIsUnique(j, dist, 0, j);
    } else {
      var q, r := j / dist, j % dist;
      assert j - dist == (q - 1) * dist + r;
      DivisionIsUnique(j - dist, dist, q - 1, r);
      if j < dist + n - 1 {
        CopyIsPeriodic(out, dist, n - 1, j);
      } else {
        CopyIsPeriodic(out, dist, n - 1, j - dist);
      }
    }
  }

  method CopyMatch(out0: seq<byte>, dist: nat, length: nat) returns (out: seq<byte>)
    requires 1 <= dist <= |out0|
    ensures out == CopyBack(out0, dist, length)
  {
    out := out0;
    var start := |out0| - dist;
    for i := 0 to length
      invariant out == CopyBack(out0, dist, i)
    {
      CopyIsPeriodic(out0, dist, i, i);
      assert i % dist < dist;
      CopyIsPeriodic(out0, dist, i, i % dist);
      DivisionIsUnique(i % dist, dist, 0, i % dist);
      out := out + [out[start + i % dist]];
    }
  }

  lemma LengthExtra(i: nat)
    requires i < |LEN_EXTRA|
    ensures LEN_EXTRA[i].1 <= 5
  {}

  lemma DistanceExtra(i: nat)
    requires i < |DIST_EXTRA|
    ensures DIST_EXTRA[i].0 >= 1 && DIST_EXTRA[i].1 <= 13
  {}

  method ReadLength(br: BitReader, sym: nat) returns (r: Result<nat>)
    requires br.Valid() && 257 <= sym <= 285
    modifies br
    ensures br.Valid() && Agrees(r, br.Left(), TakeLength(old(br.Left()), sym))
  {
    hide TakeBits;
    LengthExtra(sym - 257);
    var (base, extra) := LEN_EXTRA[sym - 257];
    var more :- br.ReadBits(extra);
    r := Ok(base + more);
  }

  method ReadDistance(br: BitReader, tree: HuffTree, ghost dist: seq<nat>) returns (r: Result<nat>)
    requires br.Valid() && Represents(tree, dist) && |dist| <= 4095
    modifies br
    ensures br.Valid() && Agrees(r, br.Left(), TakeDistance(old(br.Left()), dist))
    ensures r.Ok? ==> r.value >= 1
  {
    hide TakeSymbol, TakeBits, TakeDistance, Represents;
    DistanceStep(br.Left(), dist);
    var sym :- br.Decode(tree, dist);
    if sym >= 30 { return Err(CorruptData); }
    DistanceExtra(sym);
    var (base, extra) := DIST_EXTRA[sym];
    var more :- br.ReadBits(extra);
    r := Ok(base + more);
  }

  lemma DistanceStep(src: Source, dist: seq<nat>)
    ensures match TakeSymbol(dist, src)
            case Corrupt => TakeDistance(src, dist) == Corrupt
            case Cut => TakeDistance(src, dist) == Cut
            case Done(sym, b1) =>
              if sym >= 30 then TakeDistance(src, dist) == Corrupt
              else match TakeBits(b1, DIST_EXTRA[sym].1)
                case Done(more, b2) => TakeDistance(src, dist) == Done(DIST_EXTRA[sym].0 + more, b2)
                case _ => TakeDistance(src, dist) == Corrupt
  {
    hide TakeSymbol, TakeBits;
  }

  method ReadMatch(br: BitReader, out: seq<byte>, sym: nat, tree: HuffTree, ghost dist: seq<nat>)
    returns (r: Result<seq<byte>>)
    requires br.Valid() && Represents(tree, dist) && |dist| <= 4095 && 257 <= sym <= 285
    modifies br
    ensures br.Valid() && Agrees(r, br.Left(), TakeMatch(old(br.Left()), out, sym, dist))
  {
    hide TakeLength, TakeDistance, CopyBack;
    var length :- ReadLength(br, sym);
    var distance :- ReadDistance(br, tree, dist);
    if |out| < distance { return Err(CorruptData); }
    var out' := CopyMatch(out, distance, length);
    r := Ok(out');
  }

  method DeflateBlock(br: BitReader, out0: seq<byte>, litTree: HuffTree, distTree: HuffTree,
                      ghost lit: seq<nat>, ghost dist: seq<nat>) returns (r: Result<seq<byte>>)
    requires br.Valid() && Represents(litTree, lit) && Represents(distTree, dist)
    requires |lit| <= 4095 && |dist| <= 4095
    modifies br
    ensures br.Valid() && Agrees(r, br.Left(), Block(old(br.Left()), out0, lit, dist))
  {
    hide TakeSymbol, TakeMatch;
    var out := out0;
    while true
      invariant br.Valid() && Block(old(br.Left()), out0, lit, dist) == Block(br.Left(), out, lit, dist)
      decreases br.Left().Amount()
    {
      var sym :- br.Decode(litTree, lit);
      if sym <= 255 {
        out := out + [sym];
      } else if sym == 256 {
        return Ok(out);
      } else if sym <= 285 {
        out :- ReadMatch(br, out, sym, distTree, dist);
      } else {
        return Err(CorruptData);
      }
    }
  }

  lemma {:induction false} ValueOfJoin(a: seq<bool>, b: seq<bool>)
    ensures Value(a + b) == Value(a) + Shl(Value(b), |a|)
  {
    if a == [] {
      assert a + b == b;
    } else {
      ValueOfJoin(a[1..], b);
      assert (a + b)[1..] == a[1..] + b;
    }
  }

  /** Two bytes, low one first, are sixteen bits. */
  lemma SixteenBits(bits: seq<bool>)
    requires |bits| >= 16
    ensures Value(bits[..16]) == Value(bits[..8]) + Shl(Value(bits[8..][..8]), 8)
    ensures bits[16..] == bits[8..][8..]
  {
    hide *;
    ValueOfJoin(bits[..8], bits[8..][..8]);
    assert bits[..16] == bits[..8] + bits[8..][..8];
  }

  method ReadU16(br: BitReader) returns (r: Result<nat>)
    requires br.Valid()
    modifies br
    ensures br.Valid() && Agrees(r, br.Left(), TakeBits(old(br.Left()), 16))
  {
    hide Value, Shl;
    if |br.Rest()| >= 16 { SixteenBits(br.Rest()); }
    var lo :- br.ReadByte();
    var hi :- br.ReadByte();
    var v: nat := lo + Shl(hi, 8);
    r := Ok(v);
  }

  method ReadStored(br: BitReader, out0: seq<byte>) returns (r: Result<seq<byte>>)
    requires br.Valid()
    modifies br
    ensures br.Valid() && Agrees(r, br.Left(), Stored(old(br.Left()), out0))
  {
    hide TakeBits, TakeBytes;
    br.Align();
    var len :- ReadU16(br);
    var nlen :- ReadU16(br);
    // Two 16-bit numbers differ in every bit exactly when they add up to 0xFFFF.
    if len + nlen != 0xFFFF { return Err(CorruptData); }
    r := ReadBytes(br, out0, len);
  }

  method ReadBytes(br: BitReader, out0: seq<byte>, len: nat) returns (r: Result<seq<byte>>)
    requires br.Valid()
    modifies br
    ensures br.Valid() && Agrees(r, br.Left(), TakeBytes(old(br.Left()), out0, len))
  {
    hide TakeBits;
    var out := out0;
    for k := 0 to len
      invariant br.Valid() && TakeBytes(old(br.Left()), out0, len) == TakeBytes(br.Left(), out, len - k)
    {
      var b :- br.ReadByte();
      out := out + [b];
    }
    r := Ok(out);
  }

  method FixedTrees() returns (lit: HuffTree, dist: HuffTree)
    ensures Represents(lit, FixedLit()) && Represents(dist, FixedDist())
  {
    var ls := new nat[288](_ => 0);
    for i := 0 to 144
      invariant forall j :: 0 <= j < i ==> ls[j] == 8
    { ls[i] := 8; }
    for i := 144 to 256
      invariant forall j :: 0 <= j < i ==> ls[j] == FixedLit()[j]
    { ls[i] := 9; }
    for i := 256 to 280
      invariant forall j :: 0 <= j < i ==> ls[j] == FixedLit()[j]
    { ls[i] := 7; }
    for i := 280 to 288
      invariant forall j :: 0 <= j < i ==> ls[j] == FixedLit()[j]
    { ls[i] := 8; }
    assert ls[..] == FixedLit();
    lit := FromLengths(ls[..]);
    dist := FromLengths(FixedDist());
  }

  method ReadCodeLengths(br: BitReader, tree: HuffTree, ghost cl: seq<nat>, total: nat) returns (r: Result<seq<nat>>)
    requires br.Valid() && Represents(tree, cl) && |cl| <= 4095
    modifies br
    ensures br.Valid() && Agrees(r, br.Left(), CodeLengths(old(br.Left()), cl, [], total))
  {
    hide TakeSymbol, TakeRun;
    var lengths: seq<nat> := [];
    while |lengths| < total
      invariant br.Valid() && Lengths(lengths)
      invariant CodeLengths(old(br.Left()), cl, [], total) == CodeLengths(br.Left(), cl, lengths, total)
      decreases br.Left().Amount()
    {
      var sym :- br.Decode(tree, cl);
      lengths :- ReadRun(br, sym, lengths);
    }
    r := Ok(lengths);
  }

  method ReadRun(br: BitReader, sym: nat, lengths: seq<nat>) returns (r: Result<seq<nat>>)
    requires br.Valid() && Lengths(lengths)
    modifies br
    ensures br.Valid() && Agrees(r, br.Left(), TakeRun(old(br.Left()), sym, lengths))
  {
    hide TakeBits;
    if sym <= 15 {
      r := Ok(lengths + [sym]);
    } else if sym == 16 {
      var rep :- br.ReadBits(2);
      var last := if lengths == [] then 0 else lengths[|lengths| - 1];
      r := Ok(lengths + Repeat(last, rep + 3));
    } else if sym == 17 {
      var rep :- br.ReadBits(3);
      r := Ok(lengths + Repeat(0, rep + 3));
    } else if sym == 18 {
      var rep :- br.ReadBits(7);
      r := Ok(lengths + Repeat(0, rep + 11));
    } else {
      r := Err(CorruptData);
    }
  }

  method ReadCounts(br: BitReader) returns (r: Result<(nat, nat, nat)>)
    requires br.Valid()
    modifies br
    ensures br.Valid() && Agrees(r, br.Left(), TakeCounts(old(br.Left())))
  {
    hide TakeBits;
    var hlit :- br.ReadBits(5);
    var hdist :- br.ReadBits(5);
    var hclen :- br.ReadBits(4);
    r := Ok((hlit + 257, hdist + 1, hclen + 4));
  }

  method ReadDynamicLengths(br: BitReader) returns (r: Result<(seq<nat>, seq<nat>)>)
    requires br.Valid()
    modifies br
    ensures br.Valid() && Agrees(r, br.Left(), DynamicLengths(old(br.Left())))
  {
    hide TakeCounts, TakeLengths;
    var n :- ReadCounts(br);
    var ls :- ReadLengths(br, n.2, n.0 + n.1);
    r := Ok((ls[..n.0], ls[n.0..n.0 + n.1]));
  }

  method ReadLengths(br: BitReader, hclen: nat, total: nat) returns (r: Result<seq<nat>>)
    requires br.Valid() && hclen <= 19
    modifies br
    ensures br.Valid() && Agrees(r, br.Left(), TakeLengths(old(br.Left()), hclen, total))
  {
    hide CodeLengths, CodeLengthLengths;
    var cl :- ReadCodeLengthLengths(br, hclen);
    var tree := FromLengths(cl);
    r := ReadCodeLengths(br, tree, cl, total);
  }

  method ReadCodeLengthLengths(br: BitReader, hclen: nat) returns (r: Result<seq<nat>>)
    requires br.Valid() && hclen <= 19
    modifies br
    ensures br.Valid() && Agrees(r, br.Left(), CodeLengthLengths(old(br.Left()), 0, hclen, Repeat(0, 19)))
  {
    hide TakeBits, CodeLengthLengths, Lengths, Pow2;
    var cl := Repeat(0, 19);
    NoLengths();
    for i := 0 to hclen
      invariant br.Valid() && |cl| == 19 && Lengths(cl)
      invariant CodeLengthLengths(old(br.Left()), 0, hclen, Repeat(0, 19)) == CodeLengthLengths(br.Left(), i, hclen, cl)
    {
      ClLengthStep(br.Left(), i, hclen, cl);
      var l :- br.ReadBits(3);
      cl := cl[CL_ORDER[i] := l];
    }
    ClLengthEnd(br.Left(), hclen, cl);
    r := Ok(cl);
  }

  lemma NoLengths()
    ensures Lengths(Repeat(0, 19))
  {}

  lemma ClLengthStep(src: Source, i: nat, n: nat, acc: seq<nat>)
    requires i < n <= 19 && |acc| == 19 && Lengths(acc)
    ensures CL_ORDER[i] < 19
    ensures match TakeBits(src, 3)
            case Done(l, b1) =>
              Lengths(acc[CL_ORDER[i] := l])
              && CodeLengthLengths(src, i, n, acc) == CodeLengthLengths(b1, i + 1, n, acc[CL_ORDER[i] := l])
            case Corrupt => CodeLengthLengths(src, i, n, acc) == Corrupt
            case Cut => true
  {
    hide TakeBits;
    assert Pow2(3) == 8;
  }

  lemma ClLengthEnd(src: Source, n: nat, acc: seq<nat>)
    requires n <= 19 && |acc| == 19 && Lengths(acc)
    ensures CodeLengthLengths(src, n, n, acc) == Done(acc, src)
  {}

  method ReadBlock(br: BitReader, out: seq<byte>, btype: nat) returns (r: Result<seq<byte>>)
    requires br.Valid()
    modifies br
    ensures br.Valid() && Agrees(r, br.Left(), TakeBlock(old(br.Left()), out, btype))
  {
    hide Stored, Block, DynamicLengths;
    if btype == 0 {
      r := ReadStored(br, out);
    } else if btype == 1 {
      var lit, dist := FixedTrees();
      r := DeflateBlock(br, out, lit, dist, FixedLit(), FixedDist());
    } else if btype == 2 {
      var ls :- ReadDynamicLengths(br);
      var lit := FromLengths(ls.0);
      var dist := FromLengths(ls.1);
      r := DeflateBlock(br, out, lit, dist, ls.0, ls.1);
    } else {
      r := Err(CorruptData);
    }
  }

  method ReadBlocks(br: BitReader) returns (r: Result<seq<byte>>)
    requires br.Valid()
    modifies br
    ensures br.Valid() && Agrees(r, br.Left(), Decompress(old(br.Left()), []))
  {
    hide TakeBits, TakeBlock;
    var out: seq<byte> := [];
    while true
      invariant br.Valid() && Decompress(old(br.Left()), []) == Decompress(br.Left(), out)
      decreases br.Left().Amount()
    {
      var bfinal :- br.ReadBits(1);
      var btype :- br.ReadBits(2);
      out :- ReadBlock(br, out, btype);
      if bfinal != 0 { return Ok(out); }
    }
  }

  /** Decompresses any byte string exactly as the bit-list decoder does. A Huffman code that
      runs past the end of the data overflows: at once in a build with overflow checks
      (`wraps` is 0), and after `wraps` such codes in one without. */
  method DeflateDecompress(data: seq<byte>, wraps: nat) returns (r: Result<seq<byte>>)
    ensures match Decompress(Source(Stream(data), wraps), [])
            case Done(out, _) => r == Ok(out)
            case Corrupt => r == Err(CorruptData)
            case Cut => r == Err(Overflow)
    ensures r.Ok? ==> |r.value| <= 1032 * |data| + 129 * WRAP * wraps
  {
    hide Decompress;
    DecompressBound(Source(Stream(data), wraps), []);
    var br := new BitReader(data, wraps);
    r := ReadBlocks(br);
  }

  // ----- how much a stream can grow -----

  lemma MatchLengths(i: nat)
    requires i < |LEN_EXTRA|
    ensures LEN_EXTRA[i].0 + Pow2(LEN_EXTRA[i].1) <= 259
  {
    assert Pow2(0) == 1 && Pow2(1) == 2 && Pow2(2) == 4 && Pow2(3) == 8 && Pow2(4) == 16 && Pow2(5) == 32;
  }

  lemma MatchBound(src: Source, out: seq<byte>, sym: nat, dist: seq<nat>)
    requires 257 <= sym <= 285
    ensures var r := TakeMatch(src, out, sym, dist);
            r.Done? ==> |r.value| <= |out| + 258
  {
    hide TakeDistance;
    MatchLengths(sym - 257);
  }

  /** A literal costs at least one bit and a match of at most 258 bytes at least two. */
  lemma {:induction false} BlockBound(src: Source, out: seq<byte>, lit: seq<nat>, dist: seq<nat>)
    ensures var r := Block(src, out, lit, dist);
            r.Done? ==> |r.value| <= |out| + 129 * (src.Amount() - r.rest.Amount())
    decreases src.Amount()
  {
    hide TakeSymbol, TakeMatch;
    var s := TakeSymbol(lit, src);
    if s.Done? {
      if s.value < 256 {
        BlockBound(s.rest, out + [s.value], lit, dist);
      } else if 257 <= s.value <= 285 {
        MatchBound(s.rest, out, s.value, dist);
        var m := TakeMatch(s.rest, out, s.value, dist);
        if m.Done? { BlockBound(m.rest, m.value, lit, dist); }
      }
    }
  }

  lemma TakeBlockBound(src: Source, out: seq<byte>, btype: nat)
    ensures var r := TakeBlock(src, out, btype);
            r.Done? ==> |r.value| <= |out| + 129 * (src.Amount() - r.rest.Amount())
  {
    hide Block, DynamicLengths, TakeBytes, TakeBits;
    if btype == 1 {
      BlockBound(src, out, FixedLit(), FixedDist());
    } else if btype == 2 {
      var t := DynamicLengths(src);
      if t.Done? { BlockBound(t.rest, out, t.value.0, t.value.1); }
    }
  }

  /** Every stream expands to at most 129 bytes per bit it consumes. */
  lemma {:induction false} DecompressBound(src: Source, out: seq<byte>)
    ensures var r := Decompress(src, out);
            r.Done? ==> |r.value| <= |out| + 129 * (src.Amount() - r.rest.Amount())
    decreases src.Amount()
  {
    hide TakeBlock, TakeBits;
    var f := TakeBits(src, 1);
    if f.Done? {
      var t := TakeBits(f.rest, 2);
      if t.Done? {
        TakeBlockBound(t.rest, out, t.value);
        var b := TakeBlock(t.rest, out, t.value);
        if b.Done? && f.value == 0 { DecompressBound(b.rest, b.value); }
      }
    }
  }
}
