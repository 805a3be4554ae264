/** What SmartPack promises: decoding what was encoded gives the value back with
    its integers in their smallest width, the encoding is the shortest one the
    decoder accepts, and nesting beyond 128 is refused. */
module SmartPackLaws {
  import opened LittleEndian
  import opened Bits
  import opened Utf8
  import opened SmartPack

  // ----- smallest widths -----

  function NarrowUint(n: u128): (v: Value) {
    if n <= 0xFF then UInt8(n)
    else if n <= 0xFFFF then UInt16(n)
    else if n <= 0xFFFF_FFFF then UInt32(n)
    else if n <= 0xFFFF_FFFF_FFFF_FFFF then UInt64(n)
    else UInt128(n)
  }

  function NarrowInt(n: i64): (v: Value) {
    if n >= 0 then NarrowUint(n)
    else if n >= -0x80 then Int8(n)
    else if n >= -0x8000 then Int16(n)
    else if n >= -0x8000_0000 then Int32(n)
    else Int64(n)
  }

  /** The same value with every integer in the smallest width that holds it. */
  function Narrow(v: Value): (w: Value) {
    match v
    case UInt8(n) => NarrowUint(n)
    case UInt16(n) => NarrowUint(n)
    case UInt32(n) => NarrowUint(n)
    case UInt64(n) => NarrowUint(n)
    case UInt128(n) => NarrowUint(n)
    case Int8(n) => NarrowInt(n)
    case Int16(n) => NarrowInt(n)
    case Int32(n) => NarrowInt(n)
    case Int64(n) => NarrowInt(n)
    case Array(items) => Array(NarrowItems(items))
    case Map(pairs) => Map(NarrowPairs(pairs))
    case _ => v
  }

  function NarrowItems(items: seq<Value>): (r: seq<Value>)
    ensures |r| == |items|
  {
    if items == [] then [] else [Narrow(items[0])] + NarrowItems(items[1..])
  }

  function NarrowEntry(e: Entry): (r: Entry) {
    Entry(Narrow(e.key), Narrow(e.val))
  }

  function NarrowPairs(pairs: seq<Entry>): (r: seq<Entry>)
    ensures |r| == |pairs|
  {
    if pairs == [] then [] else [NarrowEntry(pairs[0])] + NarrowPairs(pairs[1..])
  }

  // ----- what the decoder makes of an encoded value -----

  /** What decoding gives for the encoding of `v` inside `depth` containers: the
      narrowed value, or the first fault met in reading order. */
  function Reread(v: Value, depth: nat): (r: Result<Value, DecodeError>) {
    match v
    case Extension(_, _) => Err(InvalidTag(TAG_EXT))
    case Array(items) =>
      if depth + 1 > MAX_DEPTH then Err(DepthLimitExceeded)
      else var r :- RereadItems(items, depth + 1); Ok(Array(r))
    case Map(pairs) =>
      if depth + 1 > MAX_DEPTH then Err(DepthLimitExceeded)
      else var r :- RereadPairs(pairs, depth + 1); Ok(Map(r))
    case _ => Ok(Narrow(v))
  }

  function RereadItems(items: seq<Value>, depth: nat): (r: Result<seq<Value>, DecodeError>)
    decreases items
  {
    if items == [] then Ok([])
    else
      var head :- Reread(items[0], depth);
      var tail :- RereadItems(items[1..], depth);
      Ok([head] + tail)
  }

  function RereadEntry(e: Entry, depth: nat): (r: Result<Entry, DecodeError>) {
    var k :- Reread(e.key, depth);
    var v :- Reread(e.val, depth);
    Ok(Entry(k, v))
  }

  function RereadPairs(pairs: seq<Entry>, depth: nat): (r: Result<seq<Entry>, DecodeError>)
    decreases pairs
  {
    if pairs == [] then Ok([])
    else
      var head :- RereadEntry(pairs[0], depth);
      var tail :- RereadPairs(pairs[1..], depth);
      Ok([head] + tail)
  }

  /** How many containers enclose the innermost value. */
  function Nesting(v: Value): (n: nat) {
    match v
    case Array(items) => 1 + NestingItems(items)
    case Map(pairs) => 1 + NestingPairs(pairs)
    case _ => 0
  }

  function Max(a: nat, b: nat): (m: nat) { if a >= b then a else b }

  function NestingItems(items: seq<Value>): (n: nat) {
    if items == [] then 0 else Max(Nesting(items[0]), NestingItems(items[1..]))
  }

  function NestingEntry(e: Entry): (n: nat) {
    Max(Nesting(e.key), Nesting(e.val))
  }

  function NestingPairs(pairs: seq<Entry>): (n: nat) {
    if pairs == [] then 0 else Max(NestingEntry(pairs[0]), NestingPairs(pairs[1..]))
  }

  predicate Plain(v: Value) {
    match v
    case Extension(_, _) => false
    case Array(items) => PlainItems(items)
    case Map(pairs) => PlainPairs(pairs)
    case _ => true
  }

  predicate PlainItems(items: seq<Value>) {
    items == [] || (Plain(items[0]) && PlainItems(items[1..]))
  }

  predicate PlainEntry(e: Entry) { Plain(e.key) && Plain(e.val) }

  predicate PlainPairs(pairs: seq<Entry>) {
    pairs == [] || (PlainEntry(pairs[0]) && PlainPairs(pairs[1..]))
  }

  // ----- scalars -----

  lemma TakeLeOfLe(v: nat, n: nat, tail: seq<byte>)
    requires v < Pow256(n)
    ensures TakeLe(Le(v, n) + tail, n) == Got(v, n)
  {
    assert (Le(v, n) + tail)[..n] == Le(v, n);
    FromLeOfLe(v, n);
  }

  lemma TaggedNumber(tag: byte, v: nat, n: nat, tail: seq<byte>)
    requires v < Pow256(n)
    ensures var s := [tag] + Le(v, n) + tail; s[0] == tag && TakeLe(s[1..], n) == Got(v, n)
  {
    hide TakeLe, Le;
    TakeLeOfLe(v, n, tail);
    assert ([tag] + Le(v, n) + tail)[1..] == Le(v, n) + tail;
  }

  lemma OneByte(v: byte)
    ensures Le(v, 1) == [v]
  {
    assert Le(v / 256, 0) == [];
  }

  lemma UintRoundTrip(n: u64, tail: seq<byte>)
    ensures var s := EncodeUint(n) + tail;
            s[0] <= TAG_UINT64 && DecodeScalar(s) == Got(NarrowUint(n), |EncodeUint(n)|)
  {
    hide Le, TakeLe, Pow256;
    Widths();
    if n <= FIXINT_MAX {
    } else if n <= 0xFF {
      OneByte(n);
      assert EncodeUint(n) == [TAG_UINT8] + Le(n, 1);
      TaggedNumber(TAG_UINT8, n, 1, tail);
    } else if n <= 0xFFFF {
      TaggedNumber(TAG_UINT16, n, 2, tail);
    } else if n <= 0xFFFF_FFFF {
      TaggedNumber(TAG_UINT32, n, 4, tail);
    } else {
      TaggedNumber(TAG_UINT64, n, 8, tail);
    }
  }

  lemma Uint128RoundTrip(n: u128, tail: seq<byte>)
    ensures var s := EncodeUint128(n) + tail;
            s[0] <= TAG_UINT128 && DecodeScalar(s) == Got(NarrowUint(n), |EncodeUint128(n)|)
  {
    hide Le, TakeLe, Pow256, EncodeUint;
    Widths();
    if n <= 0xFFFF_FFFF_FFFF_FFFF {
      UintRoundTrip(n, tail);
    } else {
      TaggedNumber(TAG_UINT128, n, 16, tail);
    }
  }

  lemma TwosComplement(v: int, n: nat)
    requires 0 <= 2 * v + Pow256(n) && 2 * v < Pow256(n)
    ensures Signed(Unsigned(v, n), n) == v && Unsigned(v, n) < Pow256(n)
  {}

  lemma IntRoundTrip(n: i64, tail: seq<byte>)
    ensures var s := EncodeInt(n) + tail;
            s[0] <= TAG_INT64 && DecodeScalar(s) == Got(NarrowInt(n), |EncodeInt(n)|)
  {
    hide Le, TakeLe, Pow256, EncodeUint, Signed, Unsigned;
    Widths();
    if n >= 0 {
      UintRoundTrip(n, tail);
    } else if n >= -NEG_FIXINT_COUNT {
    } else if n >= -0x80 {
      TwosComplement(n, 1);
      OneByte(Unsigned(n, 1));
      assert EncodeInt(n) == [TAG_INT8] + Le(Unsigned(n, 1), 1);
      TaggedNumber(TAG_INT8, Unsigned(n, 1), 1, tail);
    } else if n >= -0x8000 {
      TwosComplement(n, 2);
      TaggedNumber(TAG_INT16, Unsigned(n, 2), 2, tail);
    } else if n >= -0x8000_0000 {
      TwosComplement(n, 4);
      TaggedNumber(TAG_INT32, Unsigned(n, 4), 4, tail);
    } else {
      TwosComplement(n, 8);
      TaggedNumber(TAG_INT64, Unsigned(n, 8), 8, tail);
    }
  }

  lemma LenRoundTrip(base: byte, n: nat, tail: seq<byte>)
    requires base <= 0xE0 && n <= MAX_LEN32
    ensures var s := EncodeLen(base, n) + tail;
            && base <= s[0] <= base + 14
            && DecodeLen(s, base) == Got(n, |EncodeLen(base, n)|)
            && s[|EncodeLen(base, n)|..] == tail
  {
    hide Le, TakeLe, Pow256;
    Widths();
    assert (EncodeLen(base, n) + tail)[|EncodeLen(base, n)|..] == tail;
    if n <= FIX_MAX_LEN {
    } else if n <= 0xFF {
      OneByte(n);
      assert EncodeLen(base, n) == [base + 12] + Le(n, 1);
      TaggedNumber(base + 12, n, 1, tail);
    } else if n <= 0xFFFF {
      TaggedNumber(base + 13, n, 2, tail);
    } else {
      TaggedNumber(base + 14, n, 4, tail);
    }
  }

  lemma BytesRoundTrip(base: byte, b: seq<byte>, tail: seq<byte>)
    requires base <= 0xE0 && |b| <= MAX_LEN32
    ensures var h := EncodeLen(base, |b|); var s := h + b + tail;
            && base <= s[0] <= base + 14 && |h| >= 1
            && DecodeLen(s, base) == Got(|b|, |h|)
            && TakeRaw(s[|h|..], |b|) == Got(b, |b|)
  {
    hide EncodeLen, DecodeLen;
    LenRoundTrip(base, |b|, b + tail);
    var h := EncodeLen(base, |b|);
    assert h + b + tail == h + (b + tail);
    assert (b + tail)[..|b|] == b;
  }

  predicate Container(v: Value) { v.Array? || v.Map? }

  /** What a scalar's encoding starts with, and what it reads back as. */
  lemma ScalarRoundTrip(v: Value, tail: seq<byte>)
    requires Encode(v).Ok? && !Container(v)
    ensures var enc := Encode(v).value; var s := enc + tail;
            && !(FIXARRAY_BASE <= s[0] <= FIXMAP_BASE + 14)
            && DecodeScalar(s) == match Reread(v, 0) case Ok(w) => Got(w, |enc|) case Err(e) => Bad(e)
  {
    hide EncodeUint, EncodeUint128, EncodeInt, EncodeLen, DecodeLen, Le, TakeLe, Pow256, TakeRaw, WellFormed;
    Widths();
    match v
    case UInt8(n) => UintRoundTrip(n, tail);
    case UInt16(n) => UintRoundTrip(n, tail);
    case UInt32(n) => UintRoundTrip(n, tail);
    case UInt64(n) => UintRoundTrip(n, tail);
    case UInt128(n) => Uint128RoundTrip(n, tail);
    case Int8(n) => IntRoundTrip(n, tail);
    case Int16(n) => IntRoundTrip(n, tail);
    case Int32(n) => IntRoundTrip(n, tail);
    case Int64(n) => IntRoundTrip(n, tail);
    case Float32(b) => TaggedNumber(TAG_FLOAT32, b, 4, tail);
    case Float64(b) => TaggedNumber(TAG_FLOAT64, b, 8, tail);
    case Timestamp(t) => TaggedNumber(TAG_TIMESTAMP, t, 8, tail);
    case Uuid(u) => UuidRoundTrip(u, tail);
    case Str(b) => BytesRoundTrip(FIXSTR_BASE, b, tail);
    case Binary(b) => BytesRoundTrip(FIXBIN_BASE, b, tail);
    case _ =>
  }

  lemma UuidRoundTrip(u: Uuid16, tail: seq<byte>)
    ensures var s := [TAG_UUID] + u + tail; s[0] == TAG_UUID && TakeRaw(s[1..], 16) == Got(u, 16)
  {
    assert ([TAG_UUID] + u + tail)[1..] == u + tail;
    assert (u + tail)[..16] == u;
  }

  // ----- the round trip -----

  /** Decoding an encoded value, whatever follows it, stops where it ends and
      gives exactly `Reread`. */
  lemma {:induction false} RoundTrip(v: Value, depth: nat, tail: seq<byte>)
    requires Encode(v).Ok?
    ensures Decode(Encode(v).value + tail, depth) ==
            match Reread(v, depth) case Ok(w) => Got(w, |Encode(v).value|) case Err(e) => Bad(e)
    decreases v
  {
    hide EncodeLen, DecodeLen, DecodeScalar, Narrow, EncodeItems,
         EncodePairs, DecodeItems, DecodePairs, RereadItems, RereadPairs;
    match v
    case Array(items) =>
      var h, body := EncodeLen(FIXARRAY_BASE, |items|), EncodeItems(items).value;
      assert Encode(v).value + tail == h + (body + tail);
      LenRoundTrip(FIXARRAY_BASE, |items|, body + tail);
      if depth + 1 <= MAX_DEPTH { ItemsRoundTrip(items, depth + 1, tail); }
    case Map(pairs) =>
      var h, body := EncodeLen(FIXMAP_BASE, |pairs|), EncodePairs(pairs).value;
      assert Encode(v).value + tail == h + (body + tail);
      LenRoundTrip(FIXMAP_BASE, |pairs|, body + tail);
      if depth + 1 <= MAX_DEPTH { PairsRoundTrip(pairs, depth + 1, tail); }
    case _ =>
      ScalarRoundTrip(v, tail);
  }

  lemma {:induction false} ItemsRoundTrip(items: seq<Value>, depth: nat, tail: seq<byte>)
    requires EncodeItems(items).Ok?
    ensures DecodeItems(EncodeItems(items).value + tail, |items|, depth) ==
            match RereadItems(items, depth) case Ok(w) => Got(w, |EncodeItems(items).value|) case Err(e) => Bad(e)
    decreases items
  {
    hide Encode, Decode, Reread;
    if items != [] {
      var head, more := Encode(items[0]).value, EncodeItems(items[1..]).value;
      assert EncodeItems(items).value + tail == head + (more + tail);
      assert (head + (more + tail))[|head|..] == more + tail;
      RoundTrip(items[0], depth, more + tail);
      ItemsRoundTrip(items[1..], depth, tail);
    }
  }

  lemma {:induction false} EntryRoundTrip(e: Entry, depth: nat, tail: seq<byte>)
    requires EncodeEntry(e).Ok?
    ensures DecodeEntry(EncodeEntry(e).value + tail, depth) ==
            match RereadEntry(e, depth) case Ok(w) => Got(w, |EncodeEntry(e).value|) case Err(err) => Bad(err)
    decreases e
  {
    hide Encode, Decode, Reread;
    var k, v := Encode(e.key).value, Encode(e.val).value;
    assert EncodeEntry(e).value + tail == k + (v + tail);
    assert (k + (v + tail))[|k|..] == v + tail;
    RoundTrip(e.key, depth, v + tail);
    RoundTrip(e.val, depth, tail);
  }

  lemma {:induction false} PairsRoundTrip(pairs: seq<Entry>, depth: nat, tail: seq<byte>)
    requires EncodePairs(pairs).Ok?
    ensures DecodePairs(EncodePairs(pairs).value + tail, |pairs|, depth) ==
            match RereadPairs(pairs, depth) case Ok(w) => Got(w, |EncodePairs(pairs).value|) case Err(e) => Bad(e)
    decreases pairs
  {
    hide EncodeEntry, DecodeEntry, RereadEntry;
    if pairs != [] {
      var head, more := EncodeEntry(pairs[0]).value, EncodePairs(pairs[1..]).value;
      assert EncodePairs(pairs).value + tail == head + (more + tail);
      assert (head + (more + tail))[|head|..] == more + tail;
      EntryRoundTrip(pairs[0], depth, more + tail);
      PairsRoundTrip(pairs[1..], depth, tail);
    }
  }

  // ----- when it succeeds -----

  /** A value reads back, narrowed, exactly when it has no extension and nests
      no deeper than the limit; a plain value that nests deeper is refused for
      its depth. */
  lemma {:induction false} RereadExactly(v: Value, depth: nat)
    ensures Reread(v, depth).Ok? <==> Plain(v) && (Container(v) ==> depth + Nesting(v) <= MAX_DEPTH)
    ensures Reread(v, depth).Ok? ==> Reread(v, depth).value == Narrow(v)
    ensures Plain(v) && Reread(v, depth).Err? ==> Reread(v, depth).error == DepthLimitExceeded
    decreases v
  {
    match v
    case Array(items) => if depth + 1 <= MAX_DEPTH { RereadItemsExactly(items, depth + 1); }
    case Map(pairs) => if depth + 1 <= MAX_DEPTH { RereadPairsExactly(pairs, depth + 1); }
    case _ =>
  }

  lemma {:induction false} RereadItemsExactly(items: seq<Value>, depth: nat)
    requires depth <= MAX_DEPTH
    ensures RereadItems(items, depth).Ok? <==> PlainItems(items) && depth + NestingItems(items) <= MAX_DEPTH
    ensures RereadItems(items, depth).Ok? ==> RereadItems(items, depth).value == NarrowItems(items)
    ensures PlainItems(items) && RereadItems(items, depth).Err? ==>
              RereadItems(items, depth).error == DepthLimitExceeded
    decreases items
  {
    hide Reread, Narrow, Nesting, Plain;
    if items != [] {
      RereadExactly(items[0], depth);
      RereadItemsExactly(items[1..], depth);
      ScalarNesting(items[0]);
    }
  }

  lemma ScalarNesting(v: Value)
    ensures !Container(v) ==> Nesting(v) == 0
  {}

  lemma {:induction false} RereadPairsExactly(pairs: seq<Entry>, depth: nat)
    requires depth <= MAX_DEPTH
    ensures RereadPairs(pairs, depth).Ok? <==> PlainPairs(pairs) && depth + NestingPairs(pairs) <= MAX_DEPTH
    ensures RereadPairs(pairs, depth).Ok? ==> RereadPairs(pairs, depth).value == NarrowPairs(pairs)
    ensures PlainPairs(pairs) && RereadPairs(pairs, depth).Err? ==>
              RereadPairs(pairs, depth).error == DepthLimitExceeded
    decreases pairs
  {
    hide Reread, Narrow, Nesting, Plain;
    if pairs != [] {
      var e := pairs[0];
      RereadEntryExactly(e, depth);
      RereadPairsExactly(pairs[1..], depth);
    }
  }

  lemma {:induction false} RereadEntryExactly(e: Entry, depth: nat)
    requires depth <= MAX_DEPTH
    ensures RereadEntry(e, depth).Ok? <==> PlainEntry(e) && depth + NestingEntry(e) <= MAX_DEPTH
    ensures RereadEntry(e, depth).Ok? ==> RereadEntry(e, depth).value == NarrowEntry(e)
    ensures PlainEntry(e) && RereadEntry(e, depth).Err? ==> RereadEntry(e, depth).error == DepthLimitExceeded
    decreases e
  {
    hide Reread, Narrow, Nesting, Plain;
    RereadExactly(e.key, depth);
    RereadExactly(e.val, depth);
    ScalarNesting(e.key);
    ScalarNesting(e.val);
  }

  /** The law the format is for: a value without extensions, nested at most 128
      deep, comes back narrowed from its own bytes followed by any others. */
  lemma DecodeOfEncode(v: Value, tail: seq<byte>)
    requires Encode(v).Ok?
    ensures Decode(Encode(v).value + tail, 0) == Got(Narrow(v), |Encode(v).value|)
            <==> Plain(v) && Nesting(v) <= MAX_DEPTH
    ensures Plain(v) && Nesting(v) > MAX_DEPTH ==> Decode(Encode(v).value + tail, 0) == Bad(DepthLimitExceeded)
    ensures !Plain(v) ==> Decode(Encode(v).value + tail, 0).Bad?
  {
    hide Encode, Decode, Reread, Narrow, Plain, Nesting;
    RoundTrip(v, 0, tail);
    RereadExactly(v, 0);
    ScalarNesting(v);
  }

  // ----- narrowing does not change the encoding -----

  /** Encoding what was decoded from an encoding gives the same bytes again. */
  lemma {:induction false} EncodeOfNarrow(v: Value)
    ensures Encode(Narrow(v)) == Encode(v)
    decreases v
  {
    hide EncodeUint, EncodeLen, Le;
    match v
    case Array(items) => EncodeOfNarrowItems(items);
    case Map(pairs) => EncodeOfNarrowPairs(pairs);
    case _ =>
  }

  lemma {:induction false} EncodeOfNarrowItems(items: seq<Value>)
    ensures EncodeItems(NarrowItems(items)) == EncodeItems(items)
    decreases items
  {
    hide Encode, Narrow;
    if items != [] {
      EncodeOfNarrow(items[0]);
      EncodeOfNarrowItems(items[1..]);
      assert NarrowItems(items)[1..] == NarrowItems(items[1..]);
    }
  }

  lemma {:induction false} EncodeOfNarrowEntry(e: Entry)
    ensures EncodeEntry(NarrowEntry(e)) == EncodeEntry(e)
    decreases e
  {
    hide Encode, Narrow;
    EncodeOfNarrow(e.key);
    EncodeOfNarrow(e.val);
  }

  lemma {:induction false} EncodeOfNarrowPairs(pairs: seq<Entry>)
    ensures EncodePairs(NarrowPairs(pairs)) == EncodePairs(pairs)
    decreases pairs
  {
    hide EncodeEntry, NarrowEntry;
    if pairs != [] {
      EncodeOfNarrowEntry(pairs[0]);
      EncodeOfNarrowPairs(pairs[1..]);
      assert NarrowPairs(pairs)[1..] == NarrowPairs(pairs[1..]);
    }
  }

  // ----- the encoding is the shortest accepted one -----

  lemma UintLength(n: u64, w: nat)
    requires n < Pow256(w) && (w == 1 || w == 2 || w == 4 || w == 8)
    ensures |EncodeUint(n)| <= 1 + w
  {
    hide Pow256, Le;
    Widths();
  }

  lemma IntLength(n: i64, w: nat)
    requires 0 <= 2 * n + Pow256(w) && 2 * n < Pow256(w) && (w == 1 || w == 2 || w == 4 || w == 8)
    ensures |EncodeInt(n)| <= 1 + w
  {
    hide Pow256, Le, Unsigned;
    Widths();
  }

  lemma LenLength(s: seq<byte>, base: byte)
    requires s != [] && base <= 0xE0 && base <= s[0] <= base + 14
    ensures var r := DecodeLen(s, base); r.Got? ==> |EncodeLen(base, r.value)| <= r.used
  {
    hide Pow256, Le;
    Widths();
  }

  /** The numbers among the scalars. */
  lemma NumberLength(s: seq<byte>)
    requires s != [] && s[0] <= TAG_INT64
    ensures var r := DecodeScalar(s); r.Got? ==> Encode(r.value).Ok? && |Encode(r.value).value| <= r.used
  {
    hide Pow256, EncodeUint, EncodeInt, Signed;
    Widths();
    var r := DecodeScalar(s);
    if r.Got? {
      match r.value
      case UInt8(n) => if s[0] > FIXINT_MAX { UintLength(n, 1); } else { FixintLength(n); }
      case UInt16(n) => UintLength(n, 2);
      case UInt32(n) => UintLength(n, 4);
      case UInt64(n) => UintLength(n, 8);
      case UInt128(n) => if n <= 0xFFFF_FFFF_FFFF_FFFF { UintLength(n, 8); }
      case Int8(n) => if s[0] <= NEG_FIXINT_MAX { NegFixintLength(n); } else { IntLength(n, 1); }
      case Int16(n) => IntLength(n, 2);
      case Int32(n) => IntLength(n, 4);
      case Int64(n) => IntLength(n, 8);
    }
  }

  lemma FixintLength(n: byte)
    requires n <= FIXINT_MAX
    ensures |EncodeUint(n)| == 1
  {}

  lemma NegFixintLength(n: i8)
    requires -12 <= n <= -1
    ensures |EncodeInt(n)| == 1
  {}

  lemma ScalarLength(s: seq<byte>)
    requires s != [] && !(FIXARRAY_BASE <= s[0] <= FIXMAP_BASE + 14 && s[0] != 0xDF)
    ensures var r := DecodeScalar(s); r.Got? ==> Encode(r.value).Ok? && |Encode(r.value).value| <= r.used
  {
    hide EncodeUint, EncodeUint128, EncodeInt, EncodeLen, DecodeLen, Le, Pow256, WellFormed;
    if s[0] <= TAG_INT64 {
      NumberLength(s);
    } else if FIXSTR_BASE <= s[0] <= FIXSTR_BASE + 14 {
      LenLength(s, FIXSTR_BASE);
    } else if FIXBIN_BASE <= s[0] <= FIXBIN_BASE + 14 {
      LenLength(s, FIXBIN_BASE);
    }
  }

  /** Whatever bytes the decoder accepts, encoding the result takes no more of
      them, and what was accepted has no extension and nests within the limit. */
  lemma {:induction false} Shortest(s: seq<byte>, depth: nat)
    ensures var r := Decode(s, depth);
            r.Got? ==> && Encode(r.value).Ok? && |Encode(r.value).value| <= r.used
                       && Plain(r.value) && (Container(r.value) ==> depth + Nesting(r.value) <= MAX_DEPTH)
    decreases |s|, 0, 0
  {
    hide EncodeLen, DecodeLen, DecodeScalar, EncodeItems, EncodePairs, DecodeItems, DecodePairs,
         PlainItems, PlainPairs, NestingItems, NestingPairs;
    if s != [] {
      if FIXARRAY_BASE <= s[0] <= FIXARRAY_BASE + 14 {
        LenLength(s, FIXARRAY_BASE);
        var h := DecodeLen(s, FIXARRAY_BASE);
        if h.Got? && depth + 1 <= MAX_DEPTH { ShortestItems(s[h.used..], h.value, depth + 1); }
      } else if FIXMAP_BASE <= s[0] <= FIXMAP_BASE + 14 {
        LenLength(s, FIXMAP_BASE);
        var h := DecodeLen(s, FIXMAP_BASE);
        if h.Got? && depth + 1 <= MAX_DEPTH { ShortestPairs(s[h.used..], h.value, depth + 1); }
      } else {
        ScalarLength(s);
        ScalarIsPlain(s);
      }
    }
  }

  lemma ScalarIsPlain(s: seq<byte>)
    requires s != [] && !(FIXARRAY_BASE <= s[0] <= FIXMAP_BASE + 14 && s[0] != 0xDF)
    ensures var r := DecodeScalar(s); r.Got? ==> Plain(r.value) && !Container(r.value)
  {
    hide DecodeLen, TakeLe, TakeRaw, WellFormed, Signed;
  }

  lemma {:induction false} ShortestItems(s: seq<byte>, n: nat, depth: nat)
    requires depth <= MAX_DEPTH
    ensures var r := DecodeItems(s, n, depth);
            r.Got? ==> && EncodeItems(r.value).Ok? && |EncodeItems(r.value).value| <= r.used
                       && PlainItems(r.value) && depth + NestingItems(r.value) <= MAX_DEPTH
    decreases |s|, 1, n
  {
    hide Encode, Decode, Plain, Nesting;
    if n > 0 {
      Shortest(s, depth);
      var h := Decode(s, depth);
      if h.Got? {
        ScalarNesting(h.value);
        ShortestItems(s[h.used..], n - 1, depth);
        var t := DecodeItems(s[h.used..], n - 1, depth);
        if t.Got? { assert ([h.value] + t.value)[1..] == t.value; }
      }
    }
  }

  lemma {:induction false} ShortestEntry(s: seq<byte>, depth: nat)
    requires depth <= MAX_DEPTH
    ensures var r := DecodeEntry(s, depth);
            r.Got? ==> && EncodeEntry(r.value).Ok? && |EncodeEntry(r.value).value| <= r.used
                       && PlainEntry(r.value) && depth + NestingEntry(r.value) <= MAX_DEPTH
    decreases |s|, 1, 0
  {
    hide Encode, Decode, Plain, Nesting;
    Shortest(s, depth);
    var k := Decode(s, depth);
    if k.Got? {
      ScalarNesting(k.value);
      Shortest(s[k.used..], depth);
      var v := Decode(s[k.used..], depth);
      if v.Got? { ScalarNesting(v.value); }
    }
  }

  lemma {:induction false} ShortestPairs(s: seq<byte>, n: nat, depth: nat)
    requires depth <= MAX_DEPTH
    ensures var r := DecodePairs(s, n, depth);
            r.Got? ==> && EncodePairs(r.value).Ok? && |EncodePairs(r.value).value| <= r.used
                       && PlainPairs(r.value) && depth + NestingPairs(r.value) <= MAX_DEPTH
    decreases |s|, 2, n
  {
    hide EncodeEntry, DecodeEntry, PlainEntry, NestingEntry;
    if n > 0 {
      ShortestEntry(s, depth);
      var h := DecodeEntry(s, depth);
      if h.Got? {
        ShortestPairs(s[h.used..], n - 1, depth);
        var t := DecodePairs(s[h.used..], n - 1, depth);
        if t.Got? { assert ([h.value] + t.value)[1..] == t.value; }
      }
    }
  }
}
