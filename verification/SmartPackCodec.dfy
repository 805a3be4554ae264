/** The SmartPack encoder and decoder as the source runs them: one appends to a
    buffer, the other moves a position and a nesting depth over a byte slice. */
module SmartPackCodec {
  import opened LittleEndian
  import opened Bits
  import opened Utf8
  import opened SmartPack

  // ----- encoder -----

  /** `p` in front of what the rest of an encoding gives. */
  function Prefixed(p: seq<byte>, r: Encoded): (q: Encoded) {
    match r
    case Ok(b) => Ok(p + b)
    case Err(e) => Err(e)
  }

  lemma PrefixedLaws(p: seq<byte>, q: seq<byte>, r: Encoded)
    ensures Prefixed([], r) == r
    ensures Prefixed(p, Prefixed(q, r)) == Prefixed(p + q, r)
  {
    if r.Ok? {
      assert [] + r.value == r.value;
      assert p + (q + r.value) == p + q + r.value;
    }
  }

  predicate IsNumber(v: Value) {
    v.UInt8? || v.UInt16? || v.UInt32? || v.UInt64? || v.UInt128? || v.Int8? || v.Int16? || v.Int32? || v.Int64?
  }

  class Encoder {
    var buf: seq<byte>

    constructor ()
      ensures buf == []
    {
      buf := [];
    }

    method EncodeUint(v: u64)
      modifies this
      ensures buf == old(buf) + SmartPack.EncodeUint(v)
    {
      if v <= FIXINT_MAX {
        buf := buf + [v];
      } else if v <= 0xFF {
        buf := buf + [TAG_UINT8];
        buf := buf + [v];
      } else if v <= 0xFFFF {
        buf := buf + [TAG_UINT16];
        buf := buf + Le(v, 2);
      } else if v <= 0xFFFF_FFFF {
        buf := buf + [TAG_UINT32];
        buf := buf + Le(v, 4);
      } else {
        buf := buf + [TAG_UINT64];
        buf := buf + Le(v, 8);
      }
    }

    method EncodeUint128(v: u128)
      modifies this
      ensures buf == old(buf) + SmartPack.EncodeUint128(v)
    {
      if v <= 0xFFFF_FFFF_FFFF_FFFF {
        EncodeUint(v);
      } else {
        buf := buf + [TAG_UINT128];
        buf := buf + Le(v, 16);
      }
    }

    method EncodeInt(v: i64)
      modifies this
      ensures buf == old(buf) + SmartPack.EncodeInt(v)
    {
      Widths();
      if v >= 0 {
        EncodeUint(v);
      } else if v >= -NEG_FIXINT_COUNT {
        buf := buf + [NEG_FIXINT_BASE + (-v - 1)];
      } else if v >= -0x80 {
        buf := buf + [TAG_INT8];
        buf := buf + [Unsigned(v, 1)];
      } else if v >= -0x8000 {
        buf := buf + [TAG_INT16];
        buf := buf + Le(Unsigned(v, 2), 2);
      } else if v >= -0x8000_0000 {
        buf := buf + [TAG_INT32];
        buf := buf + Le(Unsigned(v, 4), 4);
      } else {
        buf := buf + [TAG_INT64];
        buf := buf + Le(Unsigned(v, 8), 8);
      }
    }

    method EncodeHeader(base: byte, count: nat) returns (ok: bool)
      requires base <= 0xE0
      modifies this
      ensures ok <==> count <= MAX_LEN32
      ensures buf == if ok then old(buf) + EncodeLen(base, count) else old(buf)
    {
      if count <= FIX_MAX_LEN {
        buf := buf + [base + count];
      } else if count <= 0xFF {
        buf := buf + [base + 12];
        buf := buf + [count];
      } else if count <= 0xFFFF {
        buf := buf + [base + 13];
        buf := buf + Le(count, 2);
      } else if count <= 0xFFFF_FFFF {
        buf := buf + [base + 14];
        buf := buf + Le(count, 4);
      } else {
        return false;
      }
      ok := true;
    }

    /** `r` reports what the encoding `e` does, and `buf` has grown from `start` by it. */
    ghost predicate Appended(start: seq<byte>, r: Result<(), EncodeError>, e: Encoded)
      reads this
    {
      match e
      case Ok(b) => r.Ok? && buf == start + b
      case Err(err) => r == Err(err) && start <= buf
    }

    method EncodeBlob(base: byte, b: seq<byte>) returns (ok: bool)
      requires base <= 0xE0
      modifies this
      ensures ok <==> |b| <= MAX_LEN32
      ensures buf == if ok then old(buf) + (EncodeLen(base, |b|) + b) else old(buf)
    {
      hide EncodeLen;
      ok := EncodeHeader(base, |b|);
      if ok { buf := buf + b; }
    }

    method EncodeNumber(v: Value)
      requires IsNumber(v)
      modifies this
      ensures Encode(v).Ok? && buf == old(buf) + Encode(v).value
    {
      hide SmartPack.EncodeUint, SmartPack.EncodeInt, SmartPack.EncodeUint128;
      match v
      case UInt8(n) => EncodeUint(n);
      case UInt16(n) => EncodeUint(n);
      case UInt32(n) => EncodeUint(n);
      case UInt64(n) => EncodeUint(n);
      case UInt128(n) => EncodeUint128(n);
      case Int8(n) => EncodeInt(n);
      case Int16(n) => EncodeInt(n);
      case Int32(n) => EncodeInt(n);
      case Int64(n) => EncodeInt(n);
    }

    method EncodeScalar(v: Value) returns (r: Result<(), EncodeError>)
      requires !v.Array? && !v.Map?
      modifies this
      ensures Appended(old(buf), r, Encode(v))
    {
      hide EncodeLen, SmartPack.EncodeUint, SmartPack.EncodeInt, SmartPack.EncodeUint128, Le;
      r := Ok(());
      if IsNumber(v) {
        EncodeNumber(v);
        return;
      }
      match v {
        case Null => buf := buf + [TAG_NULL];
        case Bool(b) => buf := buf + [if b then TAG_TRUE else TAG_FALSE];
        case Float32(b) => buf := buf + ([TAG_FLOAT32] + Le(b, 4));
        case Float64(b) => buf := buf + ([TAG_FLOAT64] + Le(b, 8));
        case Timestamp(t) => buf := buf + ([TAG_TIMESTAMP] + Le(t, 8));
        case Uuid(u) => buf := buf + ([TAG_UUID] + u);
        case Str(s) =>
          var ok := EncodeBlob(FIXSTR_BASE, s);
          if !ok { r := Err(StringTooLong(|s|)); }
        case Binary(d) =>
          var ok := EncodeBlob(FIXBIN_BASE, d);
          if !ok { r := Err(BinaryTooLong(|d|)); }
        case Extension(t, d) =>
          buf := buf + [TAG_EXT, t];
          EncodeUint(|d| % 0x1_0000_0000_0000_0000);
          buf := buf + d;
      }
    }

    /** Appends the encoding of `v`; on a length that does not fit it reports
        which, having appended only what came before. */
    method EncodeValue(v: Value) returns (r: Result<(), EncodeError>)
      modifies this
      ensures Appended(old(buf), r, Encode(v))
      decreases v
    {
      hide EncodeLen, SmartPack.EncodeUint, SmartPack.EncodeInt, SmartPack.EncodeUint128, EncodeItems, EncodePairs, Le;
      if v.Array? {
        var ok := EncodeHeader(FIXARRAY_BASE, |v.items|);
        if !ok { return Err(ArrayTooLong(|v.items|)); }
        r := EncodeArray(v.items);
      } else if v.Map? {
        var ok := EncodeHeader(FIXMAP_BASE, |v.pairs|);
        if !ok { return Err(MapTooLong(|v.pairs|)); }
        r := EncodeMap(v.pairs);
      } else {
        r := EncodeScalar(v);
      }
    }

    method EncodeArray(items: seq<Value>) returns (r: Result<(), EncodeError>)
      modifies this
      ensures Appended(old(buf), r, EncodeItems(items))
      decreases items
    {
      hide Encode;
      ghost var done: seq<byte> := [];
      PrefixedLaws([], [], EncodeItems(items));
      assert items[0..] == items;
      for i := 0 to |items|
        invariant buf == old(buf) + done
        invariant EncodeItems(items) == Prefixed(done, EncodeItems(items[i..]))
      {
        r := EncodeValue(items[i]);
        if r.Err? { return; }
        assert items[i..][1..] == items[i + 1..];
        PrefixedLaws(done, Encode(items[i]).value, EncodeItems(items[i + 1..]));
        done := done + Encode(items[i]).value;
      }
      r := Ok(());
    }

    method EncodeMap(pairs: seq<Entry>) returns (r: Result<(), EncodeError>)
      modifies this
      ensures Appended(old(buf), r, EncodePairs(pairs))
      decreases pairs
    {
      hide EncodeEntry;
      ghost var done: seq<byte> := [];
      PrefixedLaws([], [], EncodePairs(pairs));
      assert pairs[0..] == pairs;
      for i := 0 to |pairs|
        invariant buf == old(buf) + done
        invariant EncodePairs(pairs) == Prefixed(done, EncodePairs(pairs[i..]))
      {
        r := EncodePair(pairs[i]);
        if r.Err? { return; }
        assert pairs[i..][1..] == pairs[i + 1..];
        PrefixedLaws(done, EncodeEntry(pairs[i]).value, EncodePairs(pairs[i + 1..]));
        done := done + EncodeEntry(pairs[i]).value;
      }
      r := Ok(());
    }

    method EncodePair(e: Entry) returns (r: Result<(), EncodeError>)
      modifies this
      ensures Appended(old(buf), r, EncodeEntry(e))
      decreases e
    {
      hide Encode;
      r := EncodeValue(e.key);
      if r.Err? { return; }
      r := EncodeValue(e.val);
    }
  }

  // ----- decoder -----

  /** What was read so far in front of what the rest of a list gives. */
  function Resumed<T>(done: seq<T>, used: nat, r: Read<seq<T>>): (q: Read<seq<T>>) {
    match r
    case Got(vs, m) => Got(done + vs, used + m)
    case Bad(e) => Bad(e)
  }

  lemma ResumedLaws<T>(done: seq<T>, used: nat, v: T, k: nat, r: Read<seq<T>>)
    ensures Resumed([], 0, r) == r
    ensures Resumed(done, used, Resumed([v], k, r)) == Resumed(done + [v], used + k, r)
  {
    if r.Got? {
      assert [] + r.value == r.value;
      assert done + ([v] + r.value) == done + [v] + r.value;
    }
  }

  lemma ResumedBad<T>(done: seq<T>, used: nat, r: Read<seq<T>>)
    ensures r.Bad? ==> Resumed(done, used, r) == r
  {}

  lemma ResumedEnd<T>(done: seq<T>, used: nat)
    ensures Resumed(done, used, Got([], 0)) == Got(done, used)
  {
    assert done + [] == done;
  }

  lemma ItemsStep(s: seq<byte>, n: nat, depth: nat)
    ensures DecodeItems(s, n, depth) ==
      if n == 0 then Got([], 0)
      else match Decode(s, depth)
        case Got(v, k) => Resumed([v], k, DecodeItems(s[k..], n - 1, depth))
        case Bad(e) => Bad(e)
  {
    hide Decode;
  }

  lemma PairsStep(s: seq<byte>, n: nat, depth: nat)
    ensures DecodePairs(s, n, depth) ==
      if n == 0 then Got([], 0)
      else match DecodeEntry(s, depth)
        case Got(e, k) => Resumed([e], k, DecodePairs(s[k..], n - 1, depth))
        case Bad(e) => Bad(e)
  {
    hide DecodeEntry;
  }

  class Decoder {
    const data: seq<byte>
    var pos: nat
    var depth: nat

    ghost predicate Valid()
      reads this
    {
      pos <= |data|
    }

    /** `r` and the move from `p0` are what reading gives, with the depth back at `d0`. */
    ghost predicate Returned<T(!new)>(p0: nat, d0: nat, r: Result<T, DecodeError>, spec: Read<T>)
      reads this
    {
      match spec
      case Got(v, k) => r == Ok(v) && pos == p0 + k && depth == d0
      case Bad(e) => r == Err(e)
    }

    ghost function Unread(): (s: seq<byte>)
      reads this
      requires Valid()
    {
      data[pos..]
    }

    constructor (data: seq<byte>)
      ensures Valid() && this.data == data && pos == 0 && depth == 0 && Unread() == data
    {
      this.data := data;
      pos, depth := 0, 0;
    }

    method ReadBytes(n: nat) returns (r: Result<seq<byte>, DecodeError>)
      requires Valid()
      modifies this`pos
      ensures Valid() && old(pos) <= pos
      ensures match TakeRaw(old(Unread()), n)
              case Got(b, k) => r == Ok(b) && pos == old(pos) + k && Unread() == old(Unread())[k..]
              case Bad(e) => r == Err(e)
    {
      if pos + n > |data| { return Err(UnexpectedEof); }
      assert data[pos..][..n] == data[pos..pos + n];
      r := Ok(data[pos..pos + n]);
      pos := pos + n;
    }

    method ReadLe(n: nat) returns (r: Result<nat, DecodeError>)
      requires Valid()
      modifies this`pos
      ensures Valid() && old(pos) <= pos
      ensures match TakeLe(old(Unread()), n)
              case Got(v, k) => r == Ok(v) && pos == old(pos) + k && Unread() == old(Unread())[k..] && v < Pow256(n)
              case Bad(e) => r == Err(e)
    {
      var b := ReadBytes(n);
      if b.Err? { return Err(b.error); }
      r := Ok(FromLe(b.value));
    }

    /** Reads the length that follows a tag already read. */
    method ReadLen(tag: byte, base: byte) returns (r: Result<nat, DecodeError>)
      requires Valid() && base <= tag <= base + 14
      modifies this`pos
      ensures Valid() && old(pos) <= pos
      ensures match DecodeLen([tag] + old(Unread()), base)
              case Got(v, k) => r == Ok(v) && pos == old(pos) + k - 1 && Unread() == ([tag] + old(Unread()))[k..]
              case Bad(e) => r == Err(e)
    {
      hide TakeLe;
      ghost var s := [tag] + Unread();
      assert s[1..] == Unread();
      if tag <= base + FIX_MAX_LEN {
        r := Ok(tag - base);
      } else if tag == base + 12 {
        r := ReadLe(1);
      } else if tag == base + 13 {
        r := ReadLe(2);
      } else {
        r := ReadLe(4);
      }
    }

    /** Reads one value: it stops right behind it and leaves the depth as it was. */
    method DecodeValue() returns (r: Result<Value, DecodeError>)
      requires Valid()
      modifies this
      ensures Valid() && old(pos) <= pos
      ensures Returned(old(pos), old(depth), r, Decode(old(Unread()), old(depth)))
      decreases |data| - pos, 0
    {
      hide DecodeScalar, DecodeLen, DecodeItems, DecodePairs;
      if pos >= |data| { return Err(UnexpectedEof); }
      var tag := data[pos];
      ghost var s := Unread();
      pos := pos + 1;
      assert s == [tag] + Unread();
      if FIXARRAY_BASE <= tag <= FIXARRAY_BASE + 14 {
        var count := ReadLen(tag, FIXARRAY_BASE);
        if count.Err? { return Err(count.error); }
        var items := DecodeArrayValues(count.value);
        if items.Err? { return Err(items.error); }
        r := Ok(Array(items.value));
      } else if FIXMAP_BASE <= tag <= FIXMAP_BASE + 14 {
        var count := ReadLen(tag, FIXMAP_BASE);
        if count.Err? { return Err(count.error); }
        var pairs := DecodeMapValues(count.value);
        if pairs.Err? { return Err(pairs.error); }
        r := Ok(Map(pairs.value));
      } else {
        r := DecodeTagged(tag);
      }
    }

    /** The scalar that a tag already read announces. */
    method DecodeTagged(tag: byte) returns (r: Result<Value, DecodeError>)
      requires Valid() && !(FIXARRAY_BASE <= tag <= FIXMAP_BASE + 14 && tag != 0xDF)
      modifies this`pos
      ensures Valid() && old(pos) <= pos
      ensures match DecodeScalar([tag] + old(Unread()))
              case Got(v, k) => r == Ok(v) && pos == old(pos) + k - 1
              case Bad(e) => r == Err(e)
    {
      hide TakeLe, TakeRaw, DecodeLen, WellFormed, Signed, Pow256;
      Widths();
      assert ([tag] + Unread())[1..] == Unread();
      if tag <= FIXINT_MAX {
        r := Ok(UInt8(tag));
      } else if NEG_FIXINT_BASE <= tag <= NEG_FIXINT_MAX {
        r := Ok(Int8(-(tag - NEG_FIXINT_BASE) - 1));
      } else if FIXSTR_BASE <= tag <= FIXSTR_BASE + 14 {
        var len :- ReadLen(tag, FIXSTR_BASE);
        var b :- ReadBytes(len);
        if !WellFormed(b) { return Err(InvalidUtf8); }
        r := Ok(Str(b));
      } else if FIXBIN_BASE <= tag <= FIXBIN_BASE + 14 {
        var len :- ReadLen(tag, FIXBIN_BASE);
        var b :- ReadBytes(len);
        r := Ok(Binary(b));
      } else if tag == TAG_NULL {
        r := Ok(Null);
      } else if tag == TAG_FALSE {
        r := Ok(Bool(false));
      } else if tag == TAG_TRUE {
        r := Ok(Bool(true));
      } else if tag == TAG_UUID {
        var b :- ReadBytes(16);
        r := Ok(Uuid(b));
      } else {
        r := DecodeNumber(tag);
      }
    }

    method DecodeNumber(tag: byte) returns (r: Result<Value, DecodeError>)
      requires Valid() && tag > FIXINT_MAX && !(NEG_FIXINT_BASE <= tag <= NEG_FIXINT_MAX)
      requires !(FIXSTR_BASE <= tag <= FIXBIN_BASE + 14 && tag != 0xBF) &&
               !(FIXARRAY_BASE <= tag <= FIXMAP_BASE + 14 && tag != 0xDF)
      requires tag != TAG_NULL && tag != TAG_FALSE && tag != TAG_TRUE && tag != TAG_UUID
      modifies this`pos
      ensures Valid() && old(pos) <= pos
      ensures match DecodeScalar([tag] + old(Unread()))
              case Got(v, k) => r == Ok(v) && pos == old(pos) + k - 1
              case Bad(e) => r == Err(e)
    {
      hide TakeLe, TakeRaw, DecodeLen, WellFormed, Pow256;
      Widths();
      assert ([tag] + Unread())[1..] == Unread();
      if tag == TAG_UINT8 {
        var n :- ReadLe(1);
        r := Ok(UInt8(n));
      } else if tag == TAG_UINT16 {
        var n :- ReadLe(2);
        r := Ok(UInt16(n));
      } else if tag == TAG_UINT32 {
        var n :- ReadLe(4);
        r := Ok(UInt32(n));
      } else if tag == TAG_UINT64 {
        var n :- ReadLe(8);
        r := Ok(UInt64(n));
      } else if tag == TAG_UINT128 {
        var n :- ReadLe(16);
        r := Ok(UInt128(n));
      } else if tag == TAG_INT8 {
        var n :- ReadLe(1);
        r := Ok(Int8(Signed(n, 1)));
      } else if tag == TAG_INT16 {
        var n :- ReadLe(2);
        r := Ok(Int16(Signed(n, 2)));
      } else if tag == TAG_INT32 {
        var n :- ReadLe(4);
        r := Ok(Int32(Signed(n, 4)));
      } else if tag == TAG_INT64 {
        var n :- ReadLe(8);
        r := Ok(Int64(Signed(n, 8)));
      } else if tag == TAG_FLOAT32 {
        var n :- ReadLe(4);
        r := Ok(Float32(n));
      } else if tag == TAG_FLOAT64 {
        var n :- ReadLe(8);
        r := Ok(Float64(n));
      } else if tag == TAG_TIMESTAMP {
        var n :- ReadLe(8);
        r := Ok(Timestamp(n));
      } else {
        r := Err(InvalidTag(tag));
      }
    }

    method DecodeArrayValues(count: nat) returns (r: Result<seq<Value>, DecodeError>)
      requires Valid()
      modifies this
      ensures Valid() && old(pos) <= pos
      ensures old(depth) + 1 > MAX_DEPTH ==> r == Err(DepthLimitExceeded)
      ensures old(depth) + 1 <= MAX_DEPTH ==>
        Returned(old(pos), old(depth), r, DecodeItems(old(Unread()), count, old(depth) + 1))
      decreases |data| - pos, 2
    {
      hide DecodeItems;
      depth := depth + 1;
      if depth > MAX_DEPTH { return Err(DepthLimitExceeded); }
      r := DecodeCountedItems(count);
      if r.Ok? { depth := depth - 1; }
    }

    method DecodeCountedItems(count: nat) returns (r: Result<seq<Value>, DecodeError>)
      requires Valid()
      modifies this
      ensures Valid() && old(pos) <= pos
      ensures Returned(old(pos), old(depth), r, DecodeItems(old(Unread()), count, old(depth)))
      decreases |data| - pos, 1
    {
      hide Decode, Resumed, DecodeItems;
      var items := [];
      ResumedLaws([], 0, Null, 0, DecodeItems(Unread(), count, depth));
      for i := 0 to count
        invariant Valid() && old(pos) <= pos && depth == old(depth)
        invariant DecodeItems(old(Unread()), count, depth) ==
                  Resumed(items, pos - old(pos), DecodeItems(Unread(), count - i, depth))
      {
        ghost var s := Unread();
        ItemsStep(s, count - i, depth);
        ResumedBad(items, pos - old(pos), DecodeItems(s, count - i, depth));
        var v := DecodeValue();
        if v.Err? { return Err(v.error); }
        ghost var k := Decode(s, depth).used;
        assert Unread() == s[k..];
        ResumedLaws(items, pos - old(pos) - k, v.value, k, DecodeItems(Unread(), count - i - 1, depth));
        items := items + [v.value];
      }
      ItemsStep(Unread(), 0, depth);
      ResumedEnd(items, pos - old(pos));
      r := Ok(items);
    }

    method DecodePair() returns (r: Result<Entry, DecodeError>)
      requires Valid()
      modifies this
      ensures Valid() && old(pos) <= pos
      ensures Returned(old(pos), old(depth), r, DecodeEntry(old(Unread()), old(depth)))
      decreases |data| - pos, 1
    {
      hide Decode;
      ghost var s := Unread();
      var k := DecodeValue();
      if k.Err? { return Err(k.error); }
      assert Unread() == s[Decode(s, depth).used..];
      var v := DecodeValue();
      if v.Err? { return Err(v.error); }
      r := Ok(Entry(k.value, v.value));
    }

    method DecodeMapValues(count: nat) returns (r: Result<seq<Entry>, DecodeError>)
      requires Valid()
      modifies this
      ensures Valid() && old(pos) <= pos
      ensures old(depth) + 1 > MAX_DEPTH ==> r == Err(DepthLimitExceeded)
      ensures old(depth) + 1 <= MAX_DEPTH ==>
        Returned(old(pos), old(depth), r, DecodePairs(old(Unread()), count, old(depth) + 1))
      decreases |data| - pos, 3
    {
      hide DecodePairs;
      depth := depth + 1;
      if depth > MAX_DEPTH { return Err(DepthLimitExceeded); }
      r := DecodeCountedPairs(count);
      if r.Ok? { depth := depth - 1; }
    }

    method DecodeCountedPairs(count: nat) returns (r: Result<seq<Entry>, DecodeError>)
      requires Valid()
      modifies this
      ensures Valid() && old(pos) <= pos
      ensures Returned(old(pos), old(depth), r, DecodePairs(old(Unread()), count, old(depth)))
      decreases |data| - pos, 2
    {
      hide DecodeEntry, Resumed, DecodePairs;
      var pairs := [];
      ResumedLaws([], 0, Entry(Null, Null), 0, DecodePairs(Unread(), count, depth));
      for i := 0 to count
        invariant Valid() && old(pos) <= pos && depth == old(depth)
        invariant DecodePairs(old(Unread()), count, depth) ==
                  Resumed(pairs, pos - old(pos), DecodePairs(Unread(), count - i, depth))
      {
        ghost var s := Unread();
        PairsStep(s, count - i, depth);
        ResumedBad(pairs, pos - old(pos), DecodePairs(s, count - i, depth));
        var e := DecodePair();
        if e.Err? { return Err(e.error); }
        ghost var k := DecodeEntry(s, depth).used;
        assert Unread() == s[k..];
        ResumedLaws(pairs, pos - old(pos) - k, e.value, k, DecodePairs(Unread(), count - i - 1, depth));
        pairs := pairs + [e.value];
      }
      PairsStep(Unread(), 0, depth);
      ResumedEnd(pairs, pos - old(pos));
      r := Ok(pairs);
    }
  }

  /** The whole-slice entry point; bytes after the value are ignored. */
  method DecodeBytes(data: seq<byte>) returns (r: Result<Value, DecodeError>)
    ensures match Decode(data, 0) case Got(v, _) => r == Ok(v) case Bad(e) => r == Err(e)
  {
    hide Decode;
    var d := new Decoder(data);
    r := d.DecodeValue();
  }

  method EncodeBytes(v: Value) returns (r: Encoded)
    ensures r == Encode(v)
  {
    hide Encode;
    var e := new Encoder();
    var ok := e.EncodeValue(v);
    if ok.Err? { return Err(ok.error); }
    assert [] + Encode(v).value == Encode(v).value;
    r := Ok(e.buf);
  }
}
