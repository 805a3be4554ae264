/** Whole deflate streams: any list of stored, fixed-code and dynamic blocks, written
    down and read back. */
module InflateStreams {
  import opened Basics
  import opened Bits
  import opened Huffman
  import opened HuffTree
  import opened Inflate
  import opened InflateRoundTrip

  // ----- code lengths, run-length coded -----

  /** One code length, the last one again, or a short or long run of zeros. */
  datatype Run = Single(length: nat) | Again(more: nat) | Zeros(more: nat) | ManyZeros(more: nat)

  function RunSymbol(r: Run): (s: nat) {
    match r
    case Single(l) => l
    case Again(_) => 16
    case Zeros(_) => 17
    case ManyZeros(_) => 18
  }

  predicate RunWritable(r: Run, cl: seq<nat>) {
    && Coded(cl, RunSymbol(r))
    && match r
       case Single(l) => l <= 15
       case Again(n) => n < Pow2(2)
       case Zeros(n) => n < Pow2(3)
       case ManyZeros(n) => n < Pow2(7)
  }

  function RunExtra(r: Run): (b: seq<bool>) {
    match r
    case Single(_) => []
    case Again(n) => Lsb(n, 2)
    case Zeros(n) => Lsb(n, 3)
    case ManyZeros(n) => Lsb(n, 7)
  }

  /** The lengths after a run; with nothing before it, a repeat repeats zero. */
  function AddRun(acc: seq<nat>, r: Run): (ls: seq<nat>)
    ensures |acc| < |ls|
  {
    match r
    case Single(l) => acc + [l]
    case Again(n) => acc + Repeat(if acc == [] then 0 else acc[|acc| - 1], n + 3)
    case Zeros(n) => acc + Repeat(0, n + 3)
    case ManyZeros(n) => acc + Repeat(0, n + 11)
  }

  function Unrolled(rs: seq<Run>, acc: seq<nat>): (ls: seq<nat>)
    decreases |rs|
  {
    if rs == [] then acc else Unrolled(rs[1..], AddRun(acc, rs[0]))
  }

  /** The runs can be written, and the last one is the first to reach the total. */
  predicate RunsWritable(rs: seq<Run>, cl: seq<nat>, acc: seq<nat>, total: nat)
    decreases |rs|
  {
    if rs == [] then |acc| >= total
    else |acc| < total && RunWritable(rs[0], cl) && RunsWritable(rs[1..], cl, AddRun(acc, rs[0]), total)
  }

  function WriteRuns(rs: seq<Run>, cl: seq<nat>, acc: seq<nat>, total: nat): (b: seq<bool>)
    requires RunsWritable(rs, cl, acc, total)
    decreases |rs|
  {
    if rs == [] then []
    else Word(cl, RunSymbol(rs[0])) + (RunExtra(rs[0]) + WriteRuns(rs[1..], cl, AddRun(acc, rs[0]), total))
  }

  lemma RunRoundTrip(r: Run, cl: seq<nat>, acc: seq<nat>, rest: Source)
    requires Lengths(acc) && RunWritable(r, cl)
    ensures Lengths(AddRun(acc, r))
    ensures TakeRun(Before(RunExtra(r), rest), RunSymbol(r), acc) == Done(AddRun(acc, r), rest)
  {
    hide TakeBits, Lsb;
    match r
    case Single(_) => assert [] + rest.bits == rest.bits;
    case Again(n) => BitsRoundTrip(n, 2, rest);
    case Zeros(n) => BitsRoundTrip(n, 3, rest);
    case ManyZeros(n) => BitsRoundTrip(n, 7, rest);
  }

  lemma {:induction false} RunsRoundTrip(rs: seq<Run>, cl: seq<nat>, acc: seq<nat>, total: nat, rest: Source)
    requires Lengths(cl) && NotOversubscribed(cl) && Lengths(acc) && RunsWritable(rs, cl, acc, total)
    ensures CodeLengths(Before(WriteRuns(rs, cl, acc, total), rest), cl, acc, total) == Done(Unrolled(rs, acc), rest)
    ensures Lengths(Unrolled(rs, acc)) && |Unrolled(rs, acc)| >= total
    decreases |rs|
  {
    hide TakeSymbol, TakeRun, NotOversubscribed, RunWritable, RunExtra, AddRun, Word, Before, Lengths;
    if rs == [] {
      NothingBefore(rest);
    } else {
      var r := rs[0];
      var more := WriteRuns(rs[1..], cl, AddRun(acc, r), total);
      var left := Before(RunExtra(r), Before(more, rest));
      RunCoded(r, cl);
      BeforeJoin(Word(cl, RunSymbol(r)), RunExtra(r) + more, rest);
      BeforeJoin(RunExtra(r), more, rest);
      SymbolRoundTrip(cl, RunSymbol(r), left);
      RunRoundTrip(r, cl, acc, Before(more, rest));
      RunsRoundTrip(rs[1..], cl, AddRun(acc, r), total, rest);
    }
  }

  lemma NothingBefore(rest: Source)
    ensures Before([], rest) == rest
  {
    assert [] + rest.bits == rest.bits;
  }

  lemma RunCoded(r: Run, cl: seq<nat>)
    requires RunWritable(r, cl)
    ensures Coded(cl, RunSymbol(r))
  {}

  // ----- the lengths of the code length code -----

  /** Where each symbol stands in the fixed order. */
  const CL_PLACE: seq<nat> := [3, 17, 15, 13, 11, 9, 7, 5, 4, 6, 8, 10, 12, 14, 16, 18, 0, 1, 2]

  lemma OrderIsPermutation()
    ensures forall k :: 0 <= k < 19 ==> CL_PLACE[k] < 19 && CL_ORDER[CL_PLACE[k]] == k
    ensures forall i :: 0 <= i < 19 ==> CL_ORDER[i] < 19 && CL_PLACE[CL_ORDER[i]] == i
  {}

  function WriteCl(cl: seq<nat>, i: nat, n: nat): (b: seq<bool>)
    requires |cl| == 19 && i <= n <= 19
    decreases n - i
  {
    if i == n then [] else Lsb(cl[CL_ORDER[i]], 3) + WriteCl(cl, i + 1, n)
  }

  /** Three bits each, and zero where none is written. */
  predicate ClWritable(cl: seq<nat>, n: nat) {
    |cl| == 19 && n <= 19 && forall k :: 0 <= k < 19 ==> cl[k] < 8 && (CL_PLACE[k] >= n ==> cl[k] == 0)
  }

  /** The lengths when i of them are read. */
  ghost predicate ClRead(acc: seq<nat>, cl: seq<nat>, i: nat)
    requires |cl| == 19
  {
    |acc| == 19 && forall k :: 0 <= k < 19 ==> acc[k] == if CL_PLACE[k] < i then cl[k] else 0
  }

  /** One more length read. */
  lemma ClStep(acc: seq<nat>, cl: seq<nat>, i: nat, n: nat)
    requires ClWritable(cl, n) && i < n && ClRead(acc, cl, i) && Lengths(acc)
    ensures |acc| == 19 && CL_ORDER[i] < 19 && cl[CL_ORDER[i]] < 8
    ensures ClRead(acc[CL_ORDER[i] := cl[CL_ORDER[i]]], cl, i + 1) && Lengths(acc[CL_ORDER[i] := cl[CL_ORDER[i]]])
  {
    OrderIsPermutation();
  }

  lemma ClAll(acc: seq<nat>, cl: seq<nat>, n: nat)
    requires ClWritable(cl, n) && ClRead(acc, cl, n)
    ensures acc == cl
  {}

  lemma {:induction false} ClRoundTrip(cl: seq<nat>, i: nat, n: nat, acc: seq<nat>, rest: Source)
    requires ClWritable(cl, n) && i <= n && ClRead(acc, cl, i) && Lengths(acc)
    ensures CodeLengthLengths(Before(WriteCl(cl, i, n), rest), i, n, acc) == Done(cl, rest)
    decreases n - i
  {
    hide TakeBits, Lsb, Before, ClRead, Lengths;
    if i == n {
      NothingBefore(rest);
      ClAll(acc, cl, n);
    } else {
      ClStep(acc, cl, i, n);
      var k := CL_ORDER[i];
      BeforeJoin(Lsb(cl[k], 3), WriteCl(cl, i + 1, n), rest);
      assert Pow2(3) == 8;
      BitsRoundTrip(cl[k], 3, Before(WriteCl(cl, i + 1, n), rest));
      ClRoundTrip(cl, i + 1, n, acc[k := cl[k]], rest);
    }
  }

  // ----- the header of a dynamic block -----

  datatype Header = Header(hlit: nat, hdist: nat, hclen: nat, cl: seq<nat>, runs: seq<Run>)

  predicate HeaderWritable(h: Header) {
    && 257 <= h.hlit <= 288 && 1 <= h.hdist <= 32 && 4 <= h.hclen <= 19
    && ClWritable(h.cl, h.hclen) && Lengths(h.cl) && NotOversubscribed(h.cl)
    && RunsWritable(h.runs, h.cl, [], h.hlit + h.hdist)
  }

  function WriteHeader(h: Header): (b: seq<bool>)
    requires HeaderWritable(h)
  {
    Lsb(h.hlit - 257, 5) + (Lsb(h.hdist - 1, 5) + (Lsb(h.hclen - 4, 4) +
      (WriteCl(h.cl, 0, h.hclen) + WriteRuns(h.runs, h.cl, [], h.hlit + h.hdist))))
  }

  lemma UnrolledLengths(h: Header)
    requires HeaderWritable(h)
    ensures |Unrolled(h.runs, [])| >= h.hlit + h.hdist && Lengths(Unrolled(h.runs, []))
  {
    RunsRoundTrip(h.runs, h.cl, [], h.hlit + h.hdist, Source([], 0));
  }

  /** The two length lists a header stands for. */
  function LitOf(h: Header): (ls: seq<nat>)
    requires HeaderWritable(h)
  {
    UnrolledLengths(h);
    Unrolled(h.runs, [])[..h.hlit]
  }

  function DistOf(h: Header): (ls: seq<nat>)
    requires HeaderWritable(h)
  {
    UnrolledLengths(h);
    Unrolled(h.runs, [])[h.hlit..h.hlit + h.hdist]
  }

  /** Reading a header back gives its two length lists. */
  lemma HeaderRoundTrip(h: Header, rest: Source)
    requires HeaderWritable(h)
    ensures DynamicLengths(Before(WriteHeader(h), rest)) == Done((LitOf(h), DistOf(h)), rest)
  {
    hide TakeCounts, TakeLengths, Before, WriteCl, WriteRuns, NotOversubscribed, RunsWritable, Lsb;
    var total := h.hlit + h.hdist;
    var a, b := WriteCl(h.cl, 0, h.hclen), WriteRuns(h.runs, h.cl, [], total);
    CountsRoundTrip(h, a + b, rest);
    LengthsRoundTrip(h, rest);
  }

  lemma CountsRoundTrip(h: Header, more: seq<bool>, rest: Source)
    requires 257 <= h.hlit <= 288 && 1 <= h.hdist <= 32 && 4 <= h.hclen <= 19
    ensures TakeCounts(Before(Lsb(h.hlit - 257, 5) + (Lsb(h.hdist - 1, 5) + (Lsb(h.hclen - 4, 4) + more)), rest))
         == Done((h.hlit, h.hdist, h.hclen), Before(more, rest))
  {
    hide TakeBits, Before, Lsb;
    var x, y, z := Lsb(h.hlit - 257, 5), Lsb(h.hdist - 1, 5), Lsb(h.hclen - 4, 4);
    assert Pow2(5) == 32 && Pow2(4) == 16;
    BeforeJoin(x, y + (z + more), rest);
    BeforeJoin(y, z + more, rest);
    BeforeJoin(z, more, rest);
    BitsRoundTrip(h.hlit - 257, 5, Before(y, Before(z, Before(more, rest))));
    BitsRoundTrip(h.hdist - 1, 5, Before(z, Before(more, rest)));
    BitsRoundTrip(h.hclen - 4, 4, Before(more, rest));
  }

  lemma LengthsRoundTrip(h: Header, rest: Source)
    requires HeaderWritable(h)
    ensures var total := h.hlit + h.hdist;
            TakeLengths(Before(WriteCl(h.cl, 0, h.hclen) + WriteRuns(h.runs, h.cl, [], total), rest), h.hclen, total)
            == Done(Unrolled(h.runs, []), rest)
  {
    hide CodeLengths, CodeLengthLengths, Before, WriteCl, WriteRuns, NotOversubscribed, RunsWritable;
    var total := h.hlit + h.hdist;
    var a, b := WriteCl(h.cl, 0, h.hclen), WriteRuns(h.runs, h.cl, [], total);
    BeforeJoin(a, b, rest);
    ClRoundTrip(h.cl, 0, h.hclen, Repeat(0, 19), Before(b, rest));
    RunsRoundTrip(h.runs, h.cl, [], total, rest);
  }

  // ----- blocks -----

  datatype Chunk = Plain(pad: seq<bool>, data: seq<byte>) | Fixed(ts: seq<Token>) | Dynamic(h: Header, ts: seq<Token>)

  /** The block can be written at a bit position; a stored one is padded to a byte boundary. */
  predicate ChunkWritable(c: Chunk, pos: nat) {
    match c
    case Plain(pad, data) => |pad| < 8 && (pos + 3 + |pad|) % 8 == 0 && |data| <= 0xFFFF
    case Fixed(ts) => AllWritable(ts, FixedLit(), FixedDist())
    case Dynamic(h, ts) =>
      HeaderWritable(h) && Usable(LitOf(h), DistOf(h)) && AllWritable(ts, LitOf(h), DistOf(h))
  }

  function KindBits(c: Chunk): (b: seq<bool>)
    ensures |b| == 2
  {
    match c
    case Plain(_, _) => [false, false]
    case Fixed(_) => [true, false]
    case Dynamic(_, _) => [false, true]
  }

  function Kind(c: Chunk): (n: nat) {
    match c
    case Plain(_, _) => 0
    case Fixed(_) => 1
    case Dynamic(_, _) => 2
  }

  function WriteChunk(c: Chunk, pos: nat): (b: seq<bool>)
    requires ChunkWritable(c, pos)
  {
    match c
    case Plain(pad, data) => pad + (Lsb(|data|, 16) + (Lsb(0xFFFF - |data|, 16) + Stream(data)))
    case Fixed(ts) => FixedHasEnd(); WriteTokens(ts, FixedLit(), FixedDist())
    case Dynamic(h, ts) => WriteHeader(h) + WriteTokens(ts, LitOf(h), DistOf(h))
  }

  /** What the block stands for after the bytes so far. */
  function ExpandChunk(c: Chunk, pos: nat, out: seq<byte>): (r: Option<seq<byte>>)
    requires ChunkWritable(c, pos)
  {
    match c
    case Plain(_, data) => Some(out + data)
    case Fixed(ts) => Expand(ts, out, FixedLit(), FixedDist())
    case Dynamic(h, ts) => Expand(ts, out, LitOf(h), DistOf(h))
  }

  function Outcome(r: Option<seq<byte>>, rest: Source): (s: Step<seq<byte>>) {
    match r
    case Some(out) => Done(out, rest)
    case None => Corrupt
  }

  lemma {:induction false} BytesRoundTrip(data: seq<byte>, out: seq<byte>, rest: Source)
    ensures TakeBytes(Before(Stream(data), rest), out, |data|) == Done(out + data, rest)
    decreases |data|
  {
    hide TakeBits, Before, Lsb;
    if data == [] {
      NothingBefore(rest);
      assert out + [] == out;
    } else {
      BeforeJoin(Lsb(data[0], 8), Stream(data[1..]), rest);
      assert Pow2(8) == 256;
      BitsRoundTrip(data[0], 8, Before(Stream(data[1..]), rest));
      BytesRoundTrip(data[1..], out + [data[0]], rest);
      assert out + [data[0]] + data[1..] == out + data;
    }
  }

  lemma StoredRoundTrip(c: Chunk, pos: nat, out: seq<byte>, rest: Source)
    requires c.Plain? && ChunkWritable(c, pos)
    requires (pos + 3 + |WriteChunk(c, pos)| + |rest.bits|) % 8 == 0
    ensures Stored(Before(WriteChunk(c, pos), rest), out) == Done(out + c.data, rest)
  {
    hide TakeBits, TakeBytes, Lsb, Stream;
    var n := |c.data|;
    var x, y := Lsb(n, 16), Lsb(0xFFFF - n, 16);
    var more := x + (y + Stream(c.data));
    var src := Before(c.pad + more, rest);
    assert src.Aligned() == Before(more, rest) by {
      Aligning(pos + 3, |c.pad|, |src.bits|);
      assert src.bits[|c.pad|..] == more + rest.bits;
    }
    BeforeJoin(x, y + Stream(c.data), rest);
    BeforeJoin(y, Stream(c.data), rest);
    Sixteen();
    BitsRoundTrip(n, 16, Before(y + Stream(c.data), rest));
    BitsRoundTrip(0xFFFF - n, 16, Before(Stream(c.data), rest));
    BytesRoundTrip(c.data, out, rest);
  }

  lemma Sixteen()
    ensures Pow2(16) == 0x1_0000
  {
    assert Pow2(8) == 256;
  }

  lemma Aligning(p: nat, k: nat, n: nat)
    requires k < 8 && (p + k) % 8 == 0 && (p + n) % 8 == 0
    ensures n % 8 == k
  {}

  /** Reading back one block. */
  lemma ChunkRoundTrip(c: Chunk, pos: nat, out: seq<byte>, rest: Source)
    requires ChunkWritable(c, pos)
    requires (pos + 3 + |WriteChunk(c, pos)| + |rest.bits|) % 8 == 0
    ensures TakeBlock(Before(WriteChunk(c, pos), rest), out, Kind(c)) == Outcome(ExpandChunk(c, pos, out), rest)
  {
    hide Block, Stored, DynamicLengths, Before, WriteTokens, Expand, FixedLit, FixedDist, LitOf, DistOf, HeaderWritable,
         AllWritable, WriteHeader;
    match c
    case Plain(_, _) => StoredRoundTrip(c, pos, out, rest);
    case Fixed(ts) =>
      FixedCodesComplete();
      BlockRoundTrip(ts, out, FixedLit(), FixedDist(), rest);
    case Dynamic(h, ts) =>
      var tokens := WriteTokens(ts, LitOf(h), DistOf(h));
      BeforeJoin(WriteHeader(h), tokens, rest);
      HeaderRoundTrip(h, Before(tokens, rest));
      BlockRoundTrip(ts, out, LitOf(h), DistOf(h), rest);
  }

  // ----- streams -----

  function ChunkEnd(c: Chunk, pos: nat): (p: nat)
    requires ChunkWritable(c, pos)
  {
    pos + 3 + |WriteChunk(c, pos)|
  }

  predicate StreamWritable(cs: seq<Chunk>, pos: nat)
    decreases |cs|
  {
    cs == [] || (ChunkWritable(cs[0], pos) && StreamWritable(cs[1..], ChunkEnd(cs[0], pos)))
  }

  /** Each block behind its final mark and kind. */
  function WriteStream(cs: seq<Chunk>, pos: nat): (b: seq<bool>)
    requires StreamWritable(cs, pos)
    decreases |cs|
  {
    if cs == [] then []
    else [|cs| == 1] + (KindBits(cs[0]) + (WriteChunk(cs[0], pos) + WriteStream(cs[1..], ChunkEnd(cs[0], pos))))
  }

  function ExpandStream(cs: seq<Chunk>, pos: nat, out: seq<byte>): (r: Option<seq<byte>>)
    requires StreamWritable(cs, pos)
    decreases |cs|
  {
    if cs == [] then Some(out)
    else match ExpandChunk(cs[0], pos, out)
      case Some(more) => ExpandStream(cs[1..], ChunkEnd(cs[0], pos), more)
      case None => None
  }

  lemma KindRoundTrip(c: Chunk, final: bool, rest: Source)
    ensures TakeBits(Before([final], Before(KindBits(c), rest)), 1)
         == Done(if final then 1 else 0, Before(KindBits(c), rest))
    ensures TakeBits(Before(KindBits(c), rest), 2) == Done(Kind(c), rest)
  {
    var k := KindBits(c);
    assert ([final] + (k + rest.bits))[..1] == [final] && ([final] + (k + rest.bits))[1..] == k + rest.bits;
    assert (k + rest.bits)[..2] == k && (k + rest.bits)[2..] == rest.bits;
    assert Value([final]) == (if final then 1 else 0);
    assert Value(k) == Kind(c);
  }

  /** Any list of blocks of the three kinds, ending with the bytes of the stream: reading it
      back gives what the blocks stand for, and is refused exactly when a match of
      some block reaches back too far. */
  lemma {:induction false} StreamRoundTrip(cs: seq<Chunk>, pos: nat, out: seq<byte>, rest: Source)
    requires cs != [] && StreamWritable(cs, pos) && (pos + |WriteStream(cs, pos)| + |rest.bits|) % 8 == 0
    ensures Decompress(Before(WriteStream(cs, pos), rest), out) == Outcome(ExpandStream(cs, pos, out), rest)
    decreases |cs|
  {
    hide TakeBits, TakeBlock, Before, ChunkWritable, WriteChunk, ExpandChunk, KindBits, Kind;
    var c := cs[0];
    var end := ChunkEnd(c, pos);
    var body, more := WriteChunk(c, pos), WriteStream(cs[1..], end);
    var left := Before(more, rest);
    StreamParts([|cs| == 1], KindBits(c), body, more, rest);
    KindRoundTrip(c, |cs| == 1, Before(body, left));
    assert left.bits == more + rest.bits by { BeforeBits(more, rest); }
    ChunkRoundTrip(c, pos, out, left);
    if |cs| == 1 {
      assert cs[1..] == [];
      NothingBefore(rest);
    } else {
      var e := ExpandChunk(c, pos, out);
      if e.Some? {
        StreamRoundTrip(cs[1..], end, e.value, rest);
      }
    }
  }

  lemma BeforeBits(a: seq<bool>, rest: Source)
    ensures Before(a, rest).bits == a + rest.bits
  {}

  lemma StreamParts(a: seq<bool>, k: seq<bool>, b: seq<bool>, c: seq<bool>, rest: Source)
    ensures Before(a + (k + (b + c)), rest) == Before(a, Before(k, Before(b, Before(c, rest))))
  {
    hide Before;
    BeforeJoin(a, k + (b + c), rest);
    BeforeJoin(k, b + c, rest);
    BeforeJoin(b, c, rest);
  }
}
