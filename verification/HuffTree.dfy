/** The bit reader and the table-driven Huffman decoder of the image viewer. */
module HuffTree {
  import opened Basics
  import opened Bits
  import opened Huffman

  datatype Fault = CorruptData | Overflow
  datatype Result<+T> = Ok(value: T) | Err(fault: Fault) {
    predicate IsFailure() { Err? }
    function PropagateFailure<U>(): Result<U> requires Err? { Err(fault) }
    function Extract(): T requires Ok? { value }
  }

  /** The bit count is 32 bits wide. */
  const WRAP: nat := 0x1_0000_0000

  /** What is left to read: the unread bits, and how often the bit count may still wrap
      around below zero. It never may in a build with overflow checks; in one without,
      it then reads as almost 2 to the 32 bits, all of them zero. */
  datatype Source = Source(bits: seq<bool>, wraps: nat) {
    /** An upper bound on the bits that can still be read. */
    function Amount(): (n: nat) { |bits| + WRAP * wraps }

    /** From the next byte boundary on. */
    function Aligned(): (r: Source)
      ensures r.Amount() <= Amount()
    {
      Source(bits[|bits| % 8..], wraps)
    }
  }

  /** Bits written before what is left. */
  function Before(b: seq<bool>, src: Source): (r: Source) { Source(b + src.bits, src.wraps) }

  /** What reading gives: a value and what is left after it, a refusal, or `Cut` when the
      bits end inside a Huffman code and the bit count must not wrap. */
  datatype Step<+T> = Done(value: T, rest: Source) | Corrupt | Cut {
    predicate IsFailure() { !Done? }
    function PropagateFailure<U>(): Step<U> requires !Done? { if Corrupt? then Corrupt else Cut }
    function Extract(): (T, Source) requires Done? { (value, rest) }
  }

  /** A reader's result, with the bits it left unread, is what the bit list gives. */
  ghost predicate Agrees<T(!new)>(r: Result<T>, rest: Source, s: Step<T>) {
    match r
    case Ok(v) => s == Done(v, rest)
    case Err(CorruptData) => s == Corrupt
    case Err(Overflow) => s == Cut
  }

  // ----- specification over bit lists -----

  function TakeBits(src: Source, n: nat): (r: Step<nat>)
    ensures r.Done? ==> r.rest.Amount() + n == src.Amount() && r.value < Pow2(n)
    ensures !r.Cut?
  {
    if |src.bits| < n then Corrupt else Done(Value(src.bits[..n]), Source(src.bits[n..], src.wraps))
  }

  /** The first `m` bits, followed by zeros when there are fewer. */
  function Padded(bits: seq<bool>, m: nat): (r: seq<bool>)
    ensures |r| == m
  {
    if m <= |bits| then bits[..m] else bits + Lsb(0, m - |bits|)
  }

  /** What is left when n bits are taken of fewer: the wrapped count of zeros. */
  function Wrapped(src: Source, n: nat): (r: Source)
    requires |src.bits| < n <= WRAP && src.wraps > 0
    ensures r.Amount() + n == src.Amount()
  {
    Source(Lsb(0, WRAP + |src.bits| - n), src.wraps - 1)
  }

  /** Reads one symbol: the last one whose word starts the bits. */
  function TakeSymbol(ls: seq<nat>, src: Source): (r: Step<nat>)
    ensures r.Done? ==> Coded(ls, r.value) && r.rest.Amount() + ls[r.value] == src.Amount()
  {
    if MaxLen(ls) == 0 then Corrupt
    else match Match(ls, |ls|, Padded(src.bits, MaxLen(ls)))
      case None => Corrupt
      case Some(s) =>
        if ls[s] <= |src.bits| then Done(s, Source(src.bits[ls[s]..], src.wraps))
        else if src.wraps == 0 || ls[s] > WRAP then Cut
        else Done(s, Wrapped(src, ls[s]))
  }

  /** Decoding undoes canonical coding. */
  lemma SymbolRoundTrip(ls: seq<nat>, s: nat, rest: Source)
    requires Lengths(ls) && NotOversubscribed(ls) && Coded(ls, s)
    ensures TakeSymbol(ls, Before(Word(ls, s), rest)) == Done(s, rest)
  {
    var bits := Word(ls, s) + rest.bits;
    assert Word(ls, s) <= Padded(bits, MaxLen(ls));
    MatchIsWord(ls, s, Padded(bits, MaxLen(ls)));
    assert bits[ls[s]..] == rest.bits;
  }

  // ----- the lookup table -----

  datatype HuffTree = HuffTree(table: seq<nat>, maxBits: nat)

  /** A table entry: the symbol, as 16 bits, shifted left by four, and the length. */
  function EntryOf(s: nat, l: nat): (e: nat) {
    s % 0x10000 * 16 % 0x10000 + l
  }

  const EMPTY: nat := 0xFFFF

  function TableEntry(ls: seq<nat>, n: nat, m: nat, idx: nat): (e: nat)
    requires n <= |ls|
  {
    match Match(ls, n, Lsb(idx, m))
    case None => EMPTY
    case Some(s) => EntryOf(s, ls[s])
  }

  ghost predicate TableFor(table: seq<nat>, ls: seq<nat>, n: nat, m: nat)
    requires n <= |ls|
  {
    && |table| == Pow2(m)
    && forall idx :: 0 <= idx < |table| ==> table[idx] == TableEntry(ls, n, m, idx)
  }

  /** `tree` is the lookup table of the code lengths `ls`. */
  ghost predicate Represents(tree: HuffTree, ls: seq<nat>) {
    && Lengths(ls)
    && tree.maxBits == MaxLen(ls)
    && (tree.maxBits == 0 ==> tree.table == [])
    && (tree.maxBits > 0 ==> TableFor(tree.table, ls, |ls|, tree.maxBits))
  }

  lemma EntryFacts(s: nat, l: nat)
    requires s < 4095 && l <= MAX_LEN
    ensures EntryOf(s, l) == 16 * s + l != EMPTY
    ensures EntryOf(s, l) / 16 == s && EntryOf(s, l) % 16 == l
  {}

  lemma StartsIndex(ls: seq<nat>, t: nat, m: nat, idx: nat)
    requires Coded(ls, t) && ls[t] <= m
    ensures Lsb(idx, ls[t]) == Word(ls, t) <==> Word(ls, t) <= Lsb(idx, m)
  {
    LsbTake(idx, m, ls[t]);
    assert Word(ls, t) <= Lsb(idx, m) <==> Word(ls, t) == Lsb(idx, m)[..ls[t]];
  }

  /** The entries that carry symbol `s` are exactly those whose low bits are its word. */
  lemma TableHoldsSymbol(tree: HuffTree, ls: seq<nat>, idx: nat, s: nat)
    requires Represents(tree, ls) && NotOversubscribed(ls) && |ls| <= 4095
    requires idx < |tree.table| && Coded(ls, s)
    ensures tree.table[idx] == 16 * s + ls[s] <==> Lsb(idx, ls[s]) == Word(ls, s)
  {
    hide Word, Lsb, Match, NotOversubscribed, EntryOf;
    var m := tree.maxBits;
    assert tree.table[idx] == TableEntry(ls, |ls|, m, idx);
    StartsIndex(ls, s, m, idx);
    MatchIsWord(ls, s, Lsb(idx, m));
    EntryFacts(s, ls[s]);
    var r := Match(ls, |ls|, Lsb(idx, m));
    if r.Some? { EntryFacts(r.value, ls[r.value]); }
  }

  /** The empty entries are exactly those that no word starts. */
  lemma TableEmptyEntries(tree: HuffTree, ls: seq<nat>, idx: nat)
    requires Represents(tree, ls) && |ls| <= 4095 && idx < |tree.table|
    ensures tree.table[idx] == 0xFFFF <==>
            forall t: nat :: Coded(ls, t) ==> Lsb(idx, ls[t]) != Word(ls, t)
  {
    var m := tree.maxBits;
    assert tree.table[idx] == TableEntry(ls, |ls|, m, idx);
    forall t: nat | Coded(ls, t)
      ensures Lsb(idx, ls[t]) == Word(ls, t) <==> Word(ls, t) <= Lsb(idx, m)
    {
      StartsIndex(ls, t, m, idx);
    }
    var r := Match(ls, |ls|, Lsb(idx, m));
    if r.Some? { EntryFacts(r.value, ls[r.value]); }
  }

  // ----- bit reversal -----

  method ReverseBits(v0: nat, n: nat) returns (r: nat)
    ensures r < Pow2(n) && Lsb(r, n) == Msb(v0, n)
  {
    r := 0;
    var v := v0;
    for k := 0 to n
      invariant r < Pow2(k) && Lsb(r, k) == Msb(v0, k)
      invariant v == Shr(v0, k)
    {
      MsbTop(v0, k);
      ShrHalf(v0, k);
      assert (2 * r + v % 2) / 2 == r;
      r := 2 * r + v % 2;
      v := v / 2;
    }
  }

  // ----- building the table -----

  /** From one index with low bits `rev` the next one is a stride away. */
  lemma NextIndex(j: nat, idx: nat, l: nat)
    requires idx <= j < idx + Pow2(l)
    ensures Low(j, l) == Low(idx, l) <==> j == idx
  {
    SplitAt(j, l);
    SplitAt(idx, l);
    ShlOrder(Shr(idx, l), Shr(j, l), l);
    ShlOrder(Shr(j, l), Shr(idx, l), l);
  }

  lemma {:induction false} StrideKeepsLow(idx: nat, l: nat)
    ensures Low(idx + Pow2(l), l) == Low(idx, l)
  {
    if l > 0 {
      assert (idx + Pow2(l)) / 2 == idx / 2 + Pow2(l - 1);
      StrideKeepsLow(idx / 2, l - 1);
    }
  }

  /** The index positions that the stride loop visits are those the word starts. */
  lemma WordAtIndex(ls: seq<nat>, s: nat, rev: nat, m: nat, j: nat)
    requires Coded(ls, s) && ls[s] <= m
    requires rev < Pow2(ls[s]) && Lsb(rev, ls[s]) == Word(ls, s)
    ensures Low(j, ls[s]) == rev <==> Word(ls, s) <= Lsb(j, m)
  {
    hide Lsb, Low, Word;
    StartsIndex(ls, s, m, j);
    LsbOfLow(j, ls[s]);
    ValueOfLsb(j, ls[s]);
    ValueOfLsb(rev, ls[s]);
    LowOfSmall(rev, ls[s]);
  }

  lemma CountSnoc(ls: seq<nat>, i: nat, l: nat)
    requires i < |ls|
    ensures Count(ls[..i + 1], l) == Count(ls[..i], l) + Bit(ls[i] == l)
  {
    assert ls[..i + 1][..i] == ls[..i];
  }

  method CountLengths(lengths: seq<nat>, maxBits: nat) returns (blCount: array<nat>)
    requires forall i :: 0 <= i < |lengths| ==> lengths[i] <= maxBits
    ensures fresh(blCount) && blCount.Length == maxBits + 1
    ensures forall l :: 0 <= l <= maxBits ==> blCount[l] == LengthCount(lengths, l)
  {
    blCount := new nat[maxBits + 1](_ => 0);
    for i := 0 to |lengths|
      invariant forall l :: 0 <= l <= maxBits ==> blCount[l] == LengthCount(lengths[..i], l)
    {
      forall l: nat ensures Count(lengths[..i + 1], l) == Count(lengths[..i], l) + Bit(lengths[i] == l) {
        CountSnoc(lengths, i, l);
      }
      if lengths[i] > 0 {
        blCount[lengths[i]] := blCount[lengths[i]] + 1;
      }
    }
    assert lengths[..|lengths|] == lengths;
  }

  method FirstCodes(lengths: seq<nat>, maxBits: nat, blCount: array<nat>) returns (nextCode: array<nat>)
    requires blCount.Length == maxBits + 1
    requires forall l {:trigger blCount[l]} :: 0 <= l <= maxBits ==> blCount[l] == LengthCount(lengths, l)
    ensures fresh(nextCode) && nextCode.Length == maxBits + 2
    ensures forall l {:trigger nextCode[l]} :: 1 <= l <= maxBits ==> nextCode[l] == First(lengths, l)
  {
    nextCode := new nat[maxBits + 2](_ => 0);
    var code := 0;
    for bits := 1 to maxBits + 1
      invariant code == First(lengths, bits - 1)
      invariant forall l {:trigger nextCode[l]} :: 1 <= l < bits ==> nextCode[l] == First(lengths, l)
      invariant forall l {:trigger blCount[l]} :: 0 <= l <= maxBits ==> blCount[l] == LengthCount(lengths, l)
    {
      assert First(lengths, bits) == 2 * (code + blCount[bits - 1]);
      code := (code + blCount[bits - 1]) * 2;
      nextCode[bits] := code;
    }
  }

  /** Writes the entry of one symbol at every index its word starts. */
  method FillStride(table: array<nat>, ghost ls: seq<nat>, sym: nat, len: nat, rev: nat, ghost m: nat)
    requires Coded(ls, sym) && ls[sym] == len <= m
    requires rev < Pow2(len) && Lsb(rev, len) == Word(ls, sym)
    requires TableFor(table[..], ls, sym, m)
    modifies table
    ensures TableFor(table[..], ls, sym + 1, m)
  {
    hide Match, Word, TableFor;
    var stride := Pow2(len);
    var idx := rev;
    LowOfSmall(rev, len);
    forall j: nat | j < rev ensures Low(j, len) != rev {
      LowOfSmall(j, len);
    }
    while idx < table.Length
      invariant Low(idx, len) == rev
      invariant forall j: nat :: j < table.Length ==>
        table[j] == if j < idx && Low(j, len) == rev then EntryOf(sym, len) else old(table[j])
    {
      forall j: nat | idx <= j < idx + stride ensures Low(j, len) == rev <==> j == idx {
        NextIndex(j, idx, len);
      }
      StrideKeepsLow(idx, len);
      table[idx] := EntryOf(sym, len);
      idx := idx + stride;
    }
    StrideFilled(old(table[..]), table[..], ls, sym, rev, m);
  }

  /** Writing the entries of a symbol adds it to the table. */
  lemma StrideFilled(before: seq<nat>, after: seq<nat>, ls: seq<nat>, sym: nat, rev: nat, m: nat)
    requires Coded(ls, sym) && ls[sym] <= m && |after| == |before|
    requires rev < Pow2(ls[sym]) && Lsb(rev, ls[sym]) == Word(ls, sym)
    requires TableFor(before, ls, sym, m)
    requires forall j: nat :: j < |after| ==>
               after[j] == if Low(j, ls[sym]) == rev then EntryOf(sym, ls[sym]) else before[j]
    ensures TableFor(after, ls, sym + 1, m)
  {
    hide Match, Word, Lsb, Low, Pow2;
    forall j: nat | j < |after| ensures after[j] == TableEntry(ls, sym + 1, m, j) {
      assert before[j] == TableEntry(ls, sym, m, j);
      WordAtIndex(ls, sym, rev, m, j);
      MatchStep(ls, sym, Lsb(j, m));
    }
  }

  lemma MatchStep(ls: seq<nat>, n: nat, bits: seq<bool>)
    requires n < |ls|
    ensures Match(ls, n + 1, bits) == if Coded(ls, n) && Word(ls, n) <= bits then Some(n) else Match(ls, n, bits)
  {}

  method FromLengths(lengths: seq<nat>) returns (tree: HuffTree)
    requires Lengths(lengths)
    ensures Represents(tree, lengths)
  {
    var maxBits: nat := 0;
    for i := 0 to |lengths|
      invariant maxBits == MaxLen(lengths[..i])
    {
      assert lengths[..i + 1][..i] == lengths[..i];
      if lengths[i] >= maxBits { maxBits := lengths[i]; }
    }
    assert lengths[..|lengths|] == lengths;
    if maxBits == 0 { return HuffTree([], 0); }
    var table := new nat[Pow2(maxBits)](_ => EMPTY);
    var blCount := CountLengths(lengths, maxBits);
    var nextCode := FirstCodes(lengths, maxBits, blCount);
    assert TableFor(table[..], lengths, 0, maxBits);
    AssignCodes(lengths, maxBits, table, nextCode);
    tree := HuffTree(table[..], maxBits);
  }

  lemma SkipUncoded(table: seq<nat>, ls: seq<nat>, sym: nat, m: nat)
    requires sym < |ls| && ls[sym] == 0 && TableFor(table, ls, sym, m)
    ensures TableFor(table, ls, sym + 1, m)
  {}

  method AssignCodes(lengths: seq<nat>, maxBits: nat, table: array<nat>, nextCode: array<nat>)
    requires forall i :: 0 <= i < |lengths| ==> lengths[i] <= maxBits
    requires nextCode.Length == maxBits + 2 && table != nextCode
    requires forall l :: 1 <= l <= maxBits ==> nextCode[l] == First(lengths, l)
    requires TableFor(table[..], lengths, 0, maxBits)
    modifies table, nextCode
    ensures TableFor(table[..], lengths, |lengths|, maxBits)
  {
    hide First, Count, Match, TableFor, CodesFrom, Word, Code;
    FirstCodesNext(nextCode[..], lengths, maxBits);
    for sym := 0 to |lengths|
      invariant TableFor(table[..], lengths, sym, maxBits) && CodesFrom(nextCode[..], lengths, sym, maxBits)
    {
      var len := lengths[sym];
      ghost var before, next := table[..], nextCode[..];
      CodesStep(next, lengths, sym, maxBits);
      if len == 0 { SkipUncoded(before, lengths, sym, maxBits); continue; }
      var c := nextCode[len];
      nextCode[len] := nextCode[len] + 1;
      assert table[..] == before && nextCode[..] == next[len := c + 1];
      var rev := ReverseBits(c, len);
      FillStride(table, lengths, sym, len, rev, maxBits);
      assert nextCode[..] == next[len := c + 1];
    }
  }

  /** The next code of each length when the symbols before n have theirs. */
  ghost predicate CodesFrom(next: seq<nat>, ls: seq<nat>, n: nat, m: nat)
    requires n <= |ls|
  {
    |next| == m + 2 && forall l {:trigger next[l]} :: 1 <= l <= m ==> next[l] == First(ls, l) + Count(ls[..n], l)
  }

  lemma FirstCodesNext(next: seq<nat>, ls: seq<nat>, m: nat)
    requires |next| == m + 2 && forall l {:trigger next[l]} :: 1 <= l <= m ==> next[l] == First(ls, l)
    ensures CodesFrom(next, ls, 0, m)
  {
    hide First;
    assert ls[..0] == [];
  }

  lemma CodesStep(next: seq<nat>, ls: seq<nat>, n: nat, m: nat)
    requires n < |ls| && ls[n] <= m && CodesFrom(next, ls, n, m)
    ensures ls[n] == 0 ==> CodesFrom(next, ls, n + 1, m)
    ensures ls[n] > 0 ==> Coded(ls, n) && Word(ls, n) == Msb(next[ls[n]], ls[n])
                          && CodesFrom(next[ls[n] := next[ls[n]] + 1], ls, n + 1, m)
  {
    hide First, Count, Msb;
    forall l: nat ensures Count(ls[..n + 1], l) == Count(ls[..n], l) + Bit(ls[n] == l) {
      CountSnoc(ls, n, l);
    }
  }

  // ----- the bit reader -----

  class BitReader {
    const data: seq<byte>
    var pos: nat
    var buf: nat
    var nbits: nat
    var wraps: nat

    ghost predicate Valid()
      reads this
    {
      pos <= |data| && buf < Pow2(nbits) && (nbits <= 64 || (pos == |data| && nbits < WRAP))
    }

    /** The bits still to be read: those fetched, then those of the unfetched bytes. */
    ghost function Rest(): (r: seq<bool>)
      reads this
      requires Valid()
    {
      Lsb(buf, nbits) + Stream(data[pos..])
    }

    ghost function Left(): (src: Source)
      reads this
      requires Valid()
    {
      Source(Rest(), wraps)
    }

    constructor (data: seq<byte>, wraps: nat)
      ensures Valid() && this.data == data && Left() == Source(Stream(data), wraps)
    {
      this.data := data;
      pos, buf, nbits := 0, 0, 0;
      this.wraps := wraps;
    }

    /** Fetches one byte. It lies above the bits already held, so or-ing it in
        is adding it. */
    method Fetch()
      requires Valid() && nbits <= 56 && pos < |data|
      modifies this`pos, this`buf, this`nbits
      ensures Valid() && Rest() == old(Rest())
      ensures pos == old(pos) + 1
    {
      hide Lsb, Stream, Pow2;
      FetchKeepsBits(buf, nbits, data, pos);
      buf := buf + Shl(data[pos], nbits);
      nbits := nbits + 8;
      pos := pos + 1;
    }

    /** Fetches bytes while a whole one fits in 64 bits. */
    method Fill()
      requires Valid()
      modifies this`pos, this`buf, this`nbits
      ensures Valid() && Rest() == old(Rest())
      ensures nbits > 56 || pos == |data|
    {
      while nbits <= 56 && pos < |data|
        invariant Valid() && Rest() == old(Rest())
        decreases |data| - pos
      {
        Fetch();
      }
    }

    /** Drops `n` fetched bits. */
    method Drop(n: nat)
      requires Valid() && n <= nbits
      modifies this`pos, this`buf, this`nbits
      ensures Valid() && Rest() == old(Rest())[n..]
      ensures pos == old(pos)
    {
      ShiftKeepsBits(buf, nbits, n);
      assert Rest()[n..] == Lsb(buf, nbits)[n..] + Stream(data[pos..]);
      buf := Shr(buf, n);
      nbits := nbits - n;
    }

    method ReadBits(n: nat) returns (r: Result<nat>)
      requires Valid() && n <= 32
      modifies this`pos, this`buf, this`nbits
      ensures Valid() && Agrees(r, Left(), TakeBits(old(Left()), n))
    {
      if n == 0 { return Ok(0); }
      Fill();
      if nbits < n { return Err(CorruptData); }
      var v := Low(buf, n);
      MaskIsPrefix(buf, nbits, n);
      assert Rest()[..n] == Lsb(buf, nbits)[..n];
      Drop(n);
      r := Ok(v);
    }

    method Align()
      requires Valid()
      modifies this`pos, this`buf, this`nbits
      ensures Valid() && Left() == old(Left()).Aligned()
    {
      hide Lsb, Stream, Pow2;
      assert |Rest()| == nbits + 8 * |data[pos..]|;
      Drop(nbits % 8);
    }

    method ReadByte() returns (r: Result<byte>)
      requires Valid()
      modifies this`pos, this`buf, this`nbits
      ensures Valid() && Agrees(r, Left(), TakeBits(old(Left()), 8))
    {
      Fill();
      if nbits < 8 { return Err(CorruptData); }
      var v := Low(buf, 8);
      MaskIsPrefix(buf, nbits, 8);
      assert Rest()[..8] == Lsb(buf, nbits)[..8];
      Drop(8);
      r := Ok(v);
    }

    /** Peeks as many bits as the longest code has and looks them up. When the code found
        is longer than what is left, the subtraction from `nbits` overflows: a checked
        build stops, another one goes on with the wrapped count. */
    method Decode(tree: HuffTree, ghost ls: seq<nat>) returns (r: Result<nat>)
      requires Valid() && Represents(tree, ls) && |ls| <= 4095
      modifies this
      ensures Valid() && Agrees(r, Left(), TakeSymbol(ls, old(Left())))
    {
      hide Match, TableFor, Stream, Lsb;
      Fill();
      if tree.maxBits == 0 { return Err(CorruptData); }
      PeekIsPadded(buf, nbits, Stream(data[pos..]), tree.maxBits);
      var peek := Low(buf, tree.maxBits);
      TableSize(tree, ls);
      var entry := tree.table[peek];
      LookupReadsSymbol(tree, ls, peek, Left());
      if entry == EMPTY { return Err(CorruptData); }
      var sym := entry / 16;
      var len := entry % 16;
      if nbits < len {
        if wraps == 0 { return Err(Overflow); }
        Underflow(len);
      } else {
        Drop(len);
      }
      r := Ok(sym);
    }

    /** Takes more bits than there are: everything is shifted out and the count wraps. */
    method Underflow(n: nat)
      requires Valid() && pos == |data| && nbits < n <= 15 && wraps > 0
      modifies this
      ensures Valid() && Left() == Wrapped(old(Left()), n)
    {
      ShiftedOut(buf, nbits, n);
      assert Stream(data[pos..]) == [];
      buf := Shr(buf, n);
      nbits := nbits + WRAP - n;
      wraps := wraps - 1;
      assert Stream(data[pos..]) == [];
    }
  }

  lemma TableSize(tree: HuffTree, ls: seq<nat>)
    requires Represents(tree, ls) && tree.maxBits > 0
    ensures |tree.table| == Pow2(tree.maxBits)
  {}

  lemma {:induction false} ShiftedOut(buf: nat, nbits: nat, n: nat)
    requires buf < Pow2(nbits) && nbits <= n
    ensures Shr(buf, n) == 0
    decreases n
  {
    if nbits == 0 {
      if n > 0 { ShiftedOut(0, 0, n - 1); }
    } else {
      ShiftedOut(buf / 2, nbits - 1, n - 1);
    }
  }

  /** A table lookup on the padded bits reads the symbol they start with. */
  lemma LookupReadsSymbol(tree: HuffTree, ls: seq<nat>, peek: nat, src: Source)
    requires Represents(tree, ls) && |ls| <= 4095 && tree.maxBits > 0
    requires peek < |tree.table| && Lsb(peek, tree.maxBits) == Padded(src.bits, tree.maxBits)
    ensures var entry := tree.table[peek];
            TakeSymbol(ls, src) ==
            if entry == EMPTY then Corrupt
            else if entry % 16 <= |src.bits| then Done(entry / 16, Source(src.bits[entry % 16..], src.wraps))
            else if src.wraps == 0 then Cut
            else Done(entry / 16, Wrapped(src, entry % 16))
  {
    var r := Match(ls, |ls|, Padded(src.bits, tree.maxBits));
    assert tree.table[peek] == TableEntry(ls, |ls|, tree.maxBits, peek);
    if r.Some? { EntryFacts(r.value, ls[r.value]); }
  }

  lemma FetchKeepsBits(buf: nat, nbits: nat, data: seq<byte>, pos: nat)
    requires buf < Pow2(nbits) && pos < |data|
    ensures var buf' := buf + Shl(data[pos], nbits);
            && buf' < Pow2(nbits + 8)
            && Lsb(buf', nbits + 8) + Stream(data[pos + 1..]) == Lsb(buf, nbits) + Stream(data[pos..])
  {
    hide *;
    LsbAppend(buf, nbits, data[pos], 8);
    StreamStep(data, pos);
    EightBits();
    ShlPow2(8, nbits);
    ShlOrder(data[pos], 256, nbits);
  }

  lemma StreamStep(data: seq<byte>, pos: nat)
    requires pos < |data|
    ensures Stream(data[pos..]) == Lsb(data[pos], 8) + Stream(data[pos + 1..])
  {
    hide Lsb;
    assert data[pos..][1..] == data[pos + 1..];
  }

  lemma EightBits()
    ensures Pow2(8) == 256
  {}

  lemma ShiftKeepsBits(buf: nat, nbits: nat, n: nat)
    requires buf < Pow2(nbits) && n <= nbits
    ensures Shr(buf, n) < Pow2(nbits - n)
    ensures Lsb(buf, nbits)[n..] == Lsb(Shr(buf, n), nbits - n)
  {
    LsbDrop(buf, nbits, n);
    ShrBound(buf, nbits, n);
  }

  lemma MaskIsPrefix(buf: nat, nbits: nat, n: nat)
    requires n <= nbits
    ensures Low(buf, n) == Value(Lsb(buf, nbits)[..n])
  {
    LsbTake(buf, nbits, n);
    ValueOfLsb(buf, n);
  }

  lemma PeekIsPadded(buf: nat, nbits: nat, more: seq<bool>, m: nat)
    requires buf < Pow2(nbits) && (m <= nbits || more == [])
    ensures Lsb(Low(buf, m), m) == Padded(Lsb(buf, nbits) + more, m)
  {
    hide Lsb, Low, Pow2;
    LsbOfLow(buf, m);
    if m <= nbits {
      LsbTake(buf, nbits, m);
      assert (Lsb(buf, nbits) + more)[..m] == Lsb(buf, nbits)[..m];
    } else {
      LsbAppend(buf, nbits, 0, m - nbits);
      ShlZero(nbits);
      assert Lsb(buf, nbits) + more == Lsb(buf, nbits);
    }
  }
}
