/** The bytes of SmartPack as the format lays them out: the first byte of every value, what the
    decoder takes from each first byte, and what it refuses. */
module SmartPackForms {
  import opened LittleEndian
  import opened Bits
  import opened Utf8
  import opened SmartPack
  import opened SmartPackLaws

  // ----- first bytes -----

  /** Up to 127 the number itself, else how many bytes follow. */
  function UintTag(n: u128): (t: nat) {
    if n < 128 then n
    else if n < 0x100 then 0x80
    else if n < 0x1_0000 then 0x81
    else if n < 0x1_0000_0000 then 0x82
    else if n < 0x1_0000_0000_0000_0000 then 0x83
    else 0x84
  }

  /** From -1 down to -12 in the tag, else how many bytes follow. */
  function IntTag(n: i64): (t: nat) {
    if n >= 0 then UintTag(n)
    else if n >= -12 then 0x90 - 1 - n
    else if n >= -0x80 then 0x9C
    else if n >= -0x8000 then 0x9D
    else if n >= -0x8000_0000 then 0x9E
    else 0x9F
  }

  /** Lengths up to 11 in the tag, else how many bytes hold the length. */
  function LenTag(base: nat, n: nat): (t: nat) {
    if n < 12 then base + n else if n < 0x100 then base + 12 else if n < 0x1_0000 then base + 13 else base + 14
  }

  /** The table of tags. */
  function TagOf(v: Value): (t: nat) {
    match v
    case Null => 0xF0
    case Bool(b) => if b then 0xF2 else 0xF1
    case UInt8(n) => UintTag(n)
    case UInt16(n) => UintTag(n)
    case UInt32(n) => UintTag(n)
    case UInt64(n) => UintTag(n)
    case UInt128(n) => UintTag(n)
    case Int8(n) => IntTag(n)
    case Int16(n) => IntTag(n)
    case Int32(n) => IntTag(n)
    case Int64(n) => IntTag(n)
    case Float32(_) => 0xA1
    case Float64(_) => 0xA2
    case Str(s) => LenTag(0xB0, |s|)
    case Binary(d) => LenTag(0xC0, |d|)
    case Array(items) => LenTag(0xD0, |items|)
    case Map(pairs) => LenTag(0xE0, |pairs|)
    case Timestamp(_) => 0xF3
    case Uuid(_) => 0xF4
    case Extension(_, _) => 0xF9
  }

  lemma FirstByte(v: Value)
    requires Encode(v).Ok?
    ensures Encode(v).value[0] == TagOf(v)
  {
    hide Le, EncodeItems, EncodePairs, Unsigned;
  }

  /** A negative number that does not fit into its tag follows as two's complement. */
  lemma NegativePayload(n: i64)
    requires n < -12
    ensures var b := Encode(Int64(n)).value;
            var k := if n >= -0x80 then 1 else if n >= -0x8000 then 2 else if n >= -0x8000_0000 then 4 else 8;
            |b| == 1 + k && FromLe(b[1..]) - Pow256(k) == n
  {
    Widths();
    var b := Encode(Int64(n)).value;
    if n >= -0x80 {
      assert b[1..] == [Unsigned(n, 1)] && [Unsigned(n, 1)][1..] == [];
    } else if n >= -0x8000 {
      Payload(Unsigned(n, 2), 2, b);
    } else if n >= -0x8000_0000 {
      Payload(Unsigned(n, 4), 4, b);
    } else {
      Payload(Unsigned(n, 8), 8, b);
    }
  }

  lemma Payload(u: nat, k: nat, b: seq<byte>)
    requires b != [] && b[1..] == Le(u, k) && u < Pow256(k)
    ensures FromLe(b[1..]) == u
  {
    FromLeOfLe(u, k);
  }

  // ----- what is accepted -----

  /** Numbers are accepted in every width that holds them, not only in the shortest. */
  lemma AnyWidth(n: nat, tail: seq<byte>)
    ensures n < 0x100 ==> Decode([0x80] + Le(n, 1) + tail, 0) == Got(UInt8(n), 2)
    ensures n < 0x1_0000 ==> Decode([0x81] + Le(n, 2) + tail, 0) == Got(UInt16(n), 3)
    ensures n < 0x1_0000_0000 ==> Decode([0x82] + Le(n, 4) + tail, 0) == Got(UInt32(n), 5)
    ensures n < 0x1_0000_0000_0000_0000 ==> Decode([0x83] + Le(n, 8) + tail, 0) == Got(UInt64(n), 9)
    ensures n < 0x1_0000_0000_0000_0000_0000_0000_0000_0000 ==>
      Decode([0x84] + Le(n, 16) + tail, 0) == Got(UInt128(n), 17)
  {
    hide Le, TakeLe, DecodeLen, TakeRaw, WellFormed;
    Widths();
    if n < 0x100 { AfterTag(0x80, n, 1, tail); }
    if n < 0x1_0000 { AfterTag(0x81, n, 2, tail); }
    if n < 0x1_0000_0000 { AfterTag(0x82, n, 4, tail); }
    if n < 0x1_0000_0000_0000_0000 { AfterTag(0x83, n, 8, tail); }
    if n < 0x1_0000_0000_0000_0000_0000_0000_0000_0000 { AfterTag(0x84, n, 16, tail); }
  }

  /** And so are signed ones, as two's complement. */
  lemma AnySignedWidth(n: i64, tail: seq<byte>)
    ensures -0x80 <= n < 0x80 ==> Decode([0x9C] + Le(n % 0x100, 1) + tail, 0) == Got(Int8(n), 2)
    ensures -0x8000 <= n < 0x8000 ==> Decode([0x9D] + Le(n % 0x1_0000, 2) + tail, 0) == Got(Int16(n), 3)
    ensures -0x8000_0000 <= n < 0x8000_0000 ==>
      Decode([0x9E] + Le(n % 0x1_0000_0000, 4) + tail, 0) == Got(Int32(n), 5)
    ensures Decode([0x9F] + Le(n % 0x1_0000_0000_0000_0000, 8) + tail, 0) == Got(Int64(n), 9)
  {
    hide Le, Decode, Pow256;
    Widths();
    if -0x80 <= n < 0x80 { SignedNumber(0x9C, n, 1, tail); }
    if -0x8000 <= n < 0x8000 { SignedNumber(0x9D, n, 2, tail); }
    if -0x8000_0000 <= n < 0x8000_0000 { SignedNumber(0x9E, n, 4, tail); }
    SignedNumber(0x9F, n, 8, tail);
  }

  lemma SignedNumber(tag: byte, n: i64, k: nat, tail: seq<byte>)
    requires (tag == 0x9C && k == 1) || (tag == 0x9D && k == 2) || (tag == 0x9E && k == 4) || (tag == 0x9F && k == 8)
    requires -Half(k) <= n < Half(k)
    ensures Decode([tag] + Le(n % Pow256(k), k) + tail, 0) ==
            Got(match k case 1 => Int8(n) case 2 => Int16(n) case 4 => Int32(n) case _ => Int64(n), k + 1)
  {
    hide Le, TakeLe, DecodeLen, TakeRaw, WellFormed, Pow256;
    Widths();
    TwosComplement(n, k);
    AfterTag(tag, n % Pow256(k), k, tail);
  }

  function Half(k: nat): (h: int) {
    if k == 1 then 0x80 else if k == 2 then 0x8000 else if k == 4 then 0x8000_0000 else 0x8000_0000_0000_0000
  }

  lemma TwosComplement(n: i64, k: nat)
    requires (k == 1 || k == 2 || k == 4 || k == 8) && -Half(k) <= n < Half(k)
    ensures Signed(n % Pow256(k), k) == n
  {
    hide Pow256;
    Widths();
  }

  lemma AfterTag(tag: byte, n: nat, k: nat, tail: seq<byte>)
    requires n < Pow256(k)
    ensures var s := [tag] + Le(n, k) + tail; s[0] == tag && TakeLe(s[1..], k) == Got(n, k)
  {
    var s := [tag] + Le(n, k) + tail;
    assert s[1..] == Le(n, k) + tail;
    TakeLeOfLe(n, k, tail);
  }

  // ----- what is refused -----

  /** The first bytes that begin no value the decoder reads: reserved ones, and extensions. */
  predicate Unread(t: byte) {
    || 0x85 <= t <= 0x8F || t == 0xA0 || 0xA3 <= t <= 0xAF || t == 0xBF || t == 0xCF || t == 0xDF || t == 0xEF
    || 0xF5 <= t <= 0xFF
  }

  /** These are refused whatever follows; with any other, but for arrays and maps and what is in them,
      only the end of the bytes or of the text can be at fault. */
  lemma UnreadExactly(s: seq<byte>, depth: nat)
    requires s != []
    ensures Unread(s[0]) ==> Decode(s, depth) == Bad(InvalidTag(s[0]))
    ensures !Unread(s[0]) && !(0xD0 <= s[0] <= 0xEE) ==>
      Decode(s, depth).Got? || Decode(s, depth).error == UnexpectedEof || Decode(s, depth).error == InvalidUtf8
  {
    hide FromLe, WellFormed, DecodeItems, DecodePairs, Signed;
  }

  /** Reading looks no further than the value: more bytes behind it change nothing. */
  lemma {:induction false} DecodeExtends(s: seq<byte>, x: seq<byte>, depth: nat)
    requires Decode(s, depth).Got?
    ensures Decode(s + x, depth) == Decode(s, depth)
    decreases |s|, 0, 0
  {
    hide DecodeScalar, DecodeItems, DecodePairs, DecodeLen;
    assert (s + x)[0] == s[0];
    if FIXARRAY_BASE <= s[0] <= FIXARRAY_BASE + 14 {
      LenExtends(s, x, FIXARRAY_BASE);
      var h := DecodeLen(s, FIXARRAY_BASE).used;
      ItemsExtend(s[h..], x, DecodeLen(s, FIXARRAY_BASE).value, depth + 1);
      assert (s + x)[h..] == s[h..] + x;
    } else if FIXMAP_BASE <= s[0] <= FIXMAP_BASE + 14 {
      LenExtends(s, x, FIXMAP_BASE);
      var h := DecodeLen(s, FIXMAP_BASE).used;
      PairsExtend(s[h..], x, DecodeLen(s, FIXMAP_BASE).value, depth + 1);
      assert (s + x)[h..] == s[h..] + x;
    } else {
      ScalarExtends(s, x);
    }
  }

  lemma LeExtends(s: seq<byte>, x: seq<byte>, n: nat)
    requires TakeLe(s, n).Got?
    ensures TakeLe(s + x, n) == TakeLe(s, n)
  {
    assert (s + x)[..n] == s[..n];
  }

  lemma RawExtends(s: seq<byte>, x: seq<byte>, n: nat)
    requires TakeRaw(s, n).Got?
    ensures TakeRaw(s + x, n) == TakeRaw(s, n)
  {
    assert (s + x)[..n] == s[..n];
  }

  lemma LenExtends(s: seq<byte>, x: seq<byte>, base: byte)
    requires s != [] && base <= s[0] <= base + 14 && DecodeLen(s, base).Got?
    ensures (s + x)[0] == s[0] && DecodeLen(s + x, base) == DecodeLen(s, base)
  {
    hide TakeLe;
    assert (s + x)[1..] == s[1..] + x;
    var n := if s[0] == base + 12 then 1 else if s[0] == base + 13 then 2 else 4;
    if s[0] > base + FIX_MAX_LEN { LeExtends(s[1..], x, n); }
  }

  lemma ScalarExtends(s: seq<byte>, x: seq<byte>)
    requires s != [] && !(FIXARRAY_BASE <= s[0] <= FIXMAP_BASE + 14 && s[0] != 0xDF) && DecodeScalar(s).Got?
    ensures (s + x)[0] == s[0] && DecodeScalar(s + x) == DecodeScalar(s)
  {
    hide TakeLe, TakeRaw, DecodeLen, WellFormed, Signed;
    var tag, rest := s[0], s[1..];
    assert (s + x)[1..] == rest + x;
    forall n | TakeLe(rest, n).Got? ensures TakeLe(rest + x, n) == TakeLe(rest, n) { LeExtends(rest, x, n); }
    if FIXSTR_BASE <= tag <= FIXSTR_BASE + 14 {
      LenExtends(s, x, FIXSTR_BASE);
      BytesExtend(s, x, DecodeLen(s, FIXSTR_BASE));
    } else if FIXBIN_BASE <= tag <= FIXBIN_BASE + 14 {
      LenExtends(s, x, FIXBIN_BASE);
      BytesExtend(s, x, DecodeLen(s, FIXBIN_BASE));
    } else if tag == TAG_UUID {
      RawExtends(rest, x, 16);
    }
  }

  lemma BytesExtend(s: seq<byte>, x: seq<byte>, len: Read<nat>)
    requires len.Got? && len.used <= |s| && TakeRaw(s[len.used..], len.value).Got?
    ensures (s + x)[len.used..] == s[len.used..] + x
    ensures TakeRaw(s[len.used..] + x, len.value) == TakeRaw(s[len.used..], len.value)
  {
    RawExtends(s[len.used..], x, len.value);
  }

  lemma {:induction false} ItemsExtend(s: seq<byte>, x: seq<byte>, n: nat, depth: nat)
    requires DecodeItems(s, n, depth).Got?
    ensures DecodeItems(s + x, n, depth) == DecodeItems(s, n, depth)
    decreases |s|, 1, n
  {
    hide Decode;
    if n > 0 {
      DecodeExtends(s, x, depth);
      var k := Decode(s, depth).used;
      ItemsExtend(s[k..], x, n - 1, depth);
      assert (s + x)[k..] == s[k..] + x;
    }
  }

  lemma {:induction false} EntryExtends(s: seq<byte>, x: seq<byte>, depth: nat)
    requires DecodeEntry(s, depth).Got?
    ensures DecodeEntry(s + x, depth) == DecodeEntry(s, depth)
    decreases |s|, 1, 0
  {
    hide Decode;
    DecodeExtends(s, x, depth);
    var k := Decode(s, depth).used;
    DecodeExtends(s[k..], x, depth);
    assert (s + x)[k..] == s[k..] + x;
  }

  lemma {:induction false} PairsExtend(s: seq<byte>, x: seq<byte>, n: nat, depth: nat)
    requires DecodePairs(s, n, depth).Got?
    ensures DecodePairs(s + x, n, depth) == DecodePairs(s, n, depth)
    decreases |s|, 2, n
  {
    hide DecodeEntry;
    if n > 0 {
      EntryExtends(s, x, depth);
      var k := DecodeEntry(s, depth).used;
      PairsExtend(s[k..], x, n - 1, depth);
      assert (s + x)[k..] == s[k..] + x;
    }
  }

  /** No part of an encoding that lacks its end is taken for a value. */
  lemma TruncatedIsRefused(v: Value, k: nat)
    requires Encode(v).Ok? && Plain(v) && Nesting(v) <= 128 && k < |Encode(v).value|
    ensures Decode(Encode(v).value[..k], 0).Bad?
  {
    hide Encode, Decode, Plain, Nesting, Narrow;
    var b := Encode(v).value;
    assert b[..k] + b[k..] == b && b + [] == b;
    DecodeOfEncode(v, []);
    if Decode(b[..k], 0).Got? { DecodeExtends(b[..k], b[k..], 0); }
  }

  // ----- the nesting limit -----

  function Nested(n: nat): (v: Value) { if n == 0 then Null else Array([Nested(n - 1)]) }

  lemma {:induction false} NestedNests(n: nat)
    ensures Nesting(Nested(n)) == n && Plain(Nested(n)) && Encode(Nested(n)).Ok?
  {
    if n > 0 {
      var v := Nested(n - 1);
      NestedNests(n - 1);
      assert [v][1..] == [];
      OneItem(v);
    }
  }

  lemma OneItem(v: Value)
    requires Encode(v).Ok? && Plain(v)
    ensures Encode(Array([v])).Ok? && Nesting(Array([v])) == Nesting(v) + 1 && Plain(Array([v]))
  {
    assert [v][1..] == [];
    assert EncodeItems([]) == Ok([]) && NestingItems([]) == 0 && PlainItems([]);
    assert EncodeItems([v]).Ok? && NestingItems([v]) == Nesting(v) && PlainItems([v]);
  }

  /** Arrays can be nested 128 deep and no deeper. */
  lemma NestingLimit(n: nat)
    ensures Encode(Nested(n)).Ok? && (Decode(Encode(Nested(n)).value, 0).Got? <==> n <= 128)
  {
    hide Encode, Decode, Plain, Nesting, Narrow, Nested;
    NestedNests(n);
    DecodeOfEncode(Nested(n), []);
    assert Encode(Nested(n)).value + [] == Encode(Nested(n)).value;
  }
}
