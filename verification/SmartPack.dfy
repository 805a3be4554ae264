/** The SmartPack format: values, what the encoder writes for each, and what the
    decoder reads from any bytes. */
module SmartPack {
  import opened LittleEndian
  import opened Bits
  import opened Utf8

  type u16 = x: nat | x < 0x1_0000
  type u32 = x: nat | x < 0x1_0000_0000
  type u64 = x: nat | x < 0x1_0000_0000_0000_0000
  type u128 = x: nat | x < 0x1_0000_0000_0000_0000_0000_0000_0000_0000
  type i8 = x: int | -0x80 <= x < 0x80
  type i16 = x: int | -0x8000 <= x < 0x8000
  type i32 = x: int | -0x8000_0000 <= x < 0x8000_0000
  type i64 = x: int | -0x8000_0000_0000_0000 <= x < 0x8000_0000_0000_0000

  const ZERO_UUID: seq<byte> := [0, 0, 0, 0, 0, 0, 0, 0, 0, 0, 0, 0, 0, 0, 0, 0]
  type Uuid16 = s: seq<byte> | |s| == 16 witness ZERO_UUID

  /** Floats are kept as their bits. */
  datatype Value =
    | Null
    | Bool(flag: bool)
    | UInt8(n8: byte) | UInt16(n16: u16) | UInt32(n32: u32) | UInt64(n64: u64) | UInt128(n128: u128)
    | Int8(i8v: i8) | Int16(i16v: i16) | Int32(i32v: i32) | Int64(i64v: i64)
    | Float32(bits32: u32) | Float64(bits64: u64)
    | Str(text: Text)
    | Binary(data: seq<byte>)
    | Array(items: seq<Value>)
    | Map(pairs: seq<Entry>)
    | Timestamp(nanos: u64)
    | Uuid(uuid: Uuid16)
    | Extension(typeId: byte, payload: seq<byte>)

  datatype Entry = Entry(key: Value, val: Value)

  datatype EncodeError =
    | StringTooLong(len: nat)
    | BinaryTooLong(len: nat)
    | ArrayTooLong(len: nat)
    | MapTooLong(len: nat)

  datatype DecodeError = UnexpectedEof | InvalidTag(tag: byte) | InvalidUtf8 | DepthLimitExceeded

  datatype Result<+T, +E> = Ok(value: T) | Err(error: E) {
    predicate IsFailure() { Err? }
    function PropagateFailure<U>(): Result<U, E> requires Err? { Err(error) }
    function Extract(): T requires Ok? { value }
  }

  type Encoded = Result<seq<byte>, EncodeError>

  const FIXINT_MAX: byte := 0x7F
  const TAG_UINT8: byte := 0x80
  const TAG_UINT16: byte := 0x81
  const TAG_UINT32: byte := 0x82
  const TAG_UINT64: byte := 0x83
  const TAG_UINT128: byte := 0x84
  const NEG_FIXINT_BASE: byte := 0x90
  const NEG_FIXINT_MAX: byte := 0x9B
  const NEG_FIXINT_COUNT: int := 12
  const TAG_INT8: byte := 0x9C
  const TAG_INT16: byte := 0x9D
  const TAG_INT32: byte := 0x9E
  const TAG_INT64: byte := 0x9F
  const TAG_FLOAT32: byte := 0xA1
  const TAG_FLOAT64: byte := 0xA2
  const FIXSTR_BASE: byte := 0xB0
  const FIXBIN_BASE: byte := 0xC0
  const FIXARRAY_BASE: byte := 0xD0
  const FIXMAP_BASE: byte := 0xE0
  const FIX_MAX_LEN: byte := 11
  const TAG_NULL: byte := 0xF0
  const TAG_FALSE: byte := 0xF1
  const TAG_TRUE: byte := 0xF2
  const TAG_TIMESTAMP: byte := 0xF3
  const TAG_UUID: byte := 0xF4
  const TAG_EXT: byte := 0xF9
  const MAX_DEPTH: nat := 128
  const MAX_LEN32: nat := 0xFFFF_FFFF

  // ----- what the encoder writes -----

  function EncodeUint(v: u64): (b: seq<byte>) {
    if v <= FIXINT_MAX then [v]
    else if v <= 0xFF then [TAG_UINT8, v]
    else if v <= 0xFFFF then [TAG_UINT16] + Le(v, 2)
    else if v <= 0xFFFF_FFFF then [TAG_UINT32] + Le(v, 4)
    else [TAG_UINT64] + Le(v, 8)
  }

  function EncodeUint128(v: u128): (b: seq<byte>) {
    if v <= 0xFFFF_FFFF_FFFF_FFFF then EncodeUint(v) else [TAG_UINT128] + Le(v, 16)
  }

  /** Two's complement in `n` bytes. */
  function Unsigned(v: int, n: nat): (u: nat)
    requires 0 <= v + Pow256(n) && v < Pow256(n)
  {
    if v >= 0 then v else v + Pow256(n)
  }

  function Signed(u: nat, n: nat): (v: int)
  {
    if 2 * u < Pow256(n) then u else u - Pow256(n)
  }

  function EncodeInt(v: i64): (b: seq<byte>) {
    Widths();
    if v >= 0 then EncodeUint(v)
    else if v >= -NEG_FIXINT_COUNT then [NEG_FIXINT_BASE + (-v - 1)]
    else if v >= -0x80 then [TAG_INT8, Unsigned(v, 1)]
    else if v >= -0x8000 then [TAG_INT16] + Le(Unsigned(v, 2), 2)
    else if v >= -0x8000_0000 then [TAG_INT32] + Le(Unsigned(v, 4), 4)
    else [TAG_INT64] + Le(Unsigned(v, 8), 8)
  }

  /** Text, blobs, arrays and maps all start with a length: up to 11 inside the
      tag, then in one, two or four bytes after the tags `base + 12` to `base + 14`. */
  function EncodeLen(base: byte, n: nat): (b: seq<byte>)
    requires base <= 0xE0 && n <= MAX_LEN32
  {
    if n <= FIX_MAX_LEN then [base + n]
    else if n <= 0xFF then [base + 12, n]
    else if n <= 0xFFFF then [base + 13] + Le(n, 2)
    else [base + 14] + Le(n, 4)
  }

  function Encode(v: Value): (r: Encoded)
    ensures r.Ok? ==> |r.value| >= 1
  {
    match v
    case Null => Ok([TAG_NULL])
    case Bool(b) => Ok([if b then TAG_TRUE else TAG_FALSE])
    case UInt8(n) => Ok(EncodeUint(n))
    case UInt16(n) => Ok(EncodeUint(n))
    case UInt32(n) => Ok(EncodeUint(n))
    case UInt64(n) => Ok(EncodeUint(n))
    case UInt128(n) => Ok(EncodeUint128(n))
    case Int8(n) => Ok(EncodeInt(n))
    case Int16(n) => Ok(EncodeInt(n))
    case Int32(n) => Ok(EncodeInt(n))
    case Int64(n) => Ok(EncodeInt(n))
    case Float32(b) => Ok([TAG_FLOAT32] + Le(b, 4))
    case Float64(b) => Ok([TAG_FLOAT64] + Le(b, 8))
    case Timestamp(t) => Ok([TAG_TIMESTAMP] + Le(t, 8))
    case Uuid(u) => Ok([TAG_UUID] + u)
    case Str(s) => if |s| > MAX_LEN32 then Err(StringTooLong(|s|)) else Ok(EncodeLen(FIXSTR_BASE, |s|) + s)
    case Binary(d) => if |d| > MAX_LEN32 then Err(BinaryTooLong(|d|)) else Ok(EncodeLen(FIXBIN_BASE, |d|) + d)
    case Array(items) =>
      if |items| > MAX_LEN32 then Err(ArrayTooLong(|items|))
      else var body :- EncodeItems(items); Ok(EncodeLen(FIXARRAY_BASE, |items|) + body)
    case Map(pairs) =>
      if |pairs| > MAX_LEN32 then Err(MapTooLong(|pairs|))
      else var body :- EncodePairs(pairs); Ok(EncodeLen(FIXMAP_BASE, |pairs|) + body)
    case Extension(t, d) => Ok([TAG_EXT, t] + EncodeUint(|d| % 0x1_0000_0000_0000_0000) + d)
  }

  function EncodeItems(items: seq<Value>): (r: Encoded) {
    if items == [] then Ok([])
    else
      var head :- Encode(items[0]);
      var tail :- EncodeItems(items[1..]);
      Ok(head + tail)
  }

  function EncodeEntry(e: Entry): (r: Encoded) {
    var k :- Encode(e.key);
    var v :- Encode(e.val);
    Ok(k + v)
  }

  function EncodePairs(pairs: seq<Entry>): (r: Encoded) {
    if pairs == [] then Ok([])
    else
      var head :- EncodeEntry(pairs[0]);
      var tail :- EncodePairs(pairs[1..]);
      Ok(head + tail)
  }

  // ----- what the decoder reads -----

  /** A value and how many bytes it took. */
  datatype Read<+T> = Got(value: T, used: nat) | Bad(error: DecodeError) {
    predicate IsFailure() { Bad? }
    function PropagateFailure<U>(): Read<U> requires Bad? { Bad(error) }
    function Extract(): (T, nat) requires Got? { (value, used) }
  }

  function TakeLe(s: seq<byte>, n: nat): (r: Read<nat>)
    ensures r.Got? ==> r.used == n <= |s| && r.value < Pow256(n)
  {
    if |s| < n then Bad(UnexpectedEof) else Got(FromLe(s[..n]), n)
  }

  function TakeRaw(s: seq<byte>, n: nat): (r: Read<seq<byte>>)
    ensures r.Got? ==> r.used == n <= |s| && r.value == s[..n]
  {
    if |s| < n then Bad(UnexpectedEof) else Got(s[..n], n)
  }

  /** The length in or after a tag of the family at `base`. */
  function DecodeLen(s: seq<byte>, base: byte): (r: Read<nat>)
    requires s != [] && base <= s[0] <= base + 14
    ensures r.Got? ==> 1 <= r.used <= |s| && r.value <= MAX_LEN32
  {
    Widths();
    if s[0] <= base + FIX_MAX_LEN then Got(s[0] - base, 1)
    else
      var (n, k) :- TakeLe(s[1..], if s[0] == base + 12 then 1 else if s[0] == base + 13 then 2 else 4);
      Got(n, k + 1)
  }

  /** Everything but arrays and maps. */
  function DecodeScalar(s: seq<byte>): (r: Read<Value>)
    requires s != [] && !(FIXARRAY_BASE <= s[0] <= FIXMAP_BASE + 14 && s[0] != 0xDF)
    ensures r.Got? ==> 1 <= r.used <= |s|
  {
    Widths();
    var tag, rest := s[0], s[1..];
    if tag <= FIXINT_MAX then Got(UInt8(tag), 1)
    else if tag == TAG_UINT8 then var (n, k) :- TakeLe(rest, 1); Got(UInt8(n), k + 1)
    else if tag == TAG_UINT16 then var (n, k) :- TakeLe(rest, 2); Got(UInt16(n), k + 1)
    else if tag == TAG_UINT32 then var (n, k) :- TakeLe(rest, 4); Got(UInt32(n), k + 1)
    else if tag == TAG_UINT64 then var (n, k) :- TakeLe(rest, 8); Got(UInt64(n), k + 1)
    else if tag == TAG_UINT128 then var (n, k) :- TakeLe(rest, 16); Got(UInt128(n), k + 1)
    else if NEG_FIXINT_BASE <= tag <= NEG_FIXINT_MAX then Got(Int8(-(tag - NEG_FIXINT_BASE) - 1), 1)
    else if tag == TAG_INT8 then var (n, k) :- TakeLe(rest, 1); Got(Int8(Signed(n, 1)), k + 1)
    else if tag == TAG_INT16 then var (n, k) :- TakeLe(rest, 2); Got(Int16(Signed(n, 2)), k + 1)
    else if tag == TAG_INT32 then var (n, k) :- TakeLe(rest, 4); Got(Int32(Signed(n, 4)), k + 1)
    else if tag == TAG_INT64 then var (n, k) :- TakeLe(rest, 8); Got(Int64(Signed(n, 8)), k + 1)
    else if tag == TAG_FLOAT32 then var (n, k) :- TakeLe(rest, 4); Got(Float32(n), k + 1)
    else if tag == TAG_FLOAT64 then var (n, k) :- TakeLe(rest, 8); Got(Float64(n), k + 1)
    else if FIXSTR_BASE <= tag <= FIXSTR_BASE + 14 then
      var (n, h) :- DecodeLen(s, FIXSTR_BASE);
      var (b, k) :- TakeRaw(s[h..], n);
      if WellFormed(b) then Got(Str(b), h + k) else Bad(InvalidUtf8)
    else if FIXBIN_BASE <= tag <= FIXBIN_BASE + 14 then
      var (n, h) :- DecodeLen(s, FIXBIN_BASE);
      var (b, k) :- TakeRaw(s[h..], n);
      Got(Binary(b), h + k)
    else if tag == TAG_NULL then Got(Null, 1)
    else if tag == TAG_FALSE then Got(Bool(false), 1)
    else if tag == TAG_TRUE then Got(Bool(true), 1)
    else if tag == TAG_TIMESTAMP then var (n, k) :- TakeLe(rest, 8); Got(Timestamp(n), k + 1)
    else if tag == TAG_UUID then var (b, k) :- TakeRaw(rest, 16); Got(Uuid(b), k + 1)
    else Bad(InvalidTag(tag))
  }

  function Decode(s: seq<byte>, depth: nat): (r: Read<Value>)
    ensures r.Got? ==> 1 <= r.used <= |s|
    decreases |s|, 0, 0
  {
    if s == [] then Bad(UnexpectedEof)
    else if FIXARRAY_BASE <= s[0] <= FIXARRAY_BASE + 14 then
      var (n, h) :- DecodeLen(s, FIXARRAY_BASE);
      if depth + 1 > MAX_DEPTH then Bad(DepthLimitExceeded)
      else var (items, k) :- DecodeItems(s[h..], n, depth + 1); Got(Array(items), h + k)
    else if FIXMAP_BASE <= s[0] <= FIXMAP_BASE + 14 then
      var (n, h) :- DecodeLen(s, FIXMAP_BASE);
      if depth + 1 > MAX_DEPTH then Bad(DepthLimitExceeded)
      else var (pairs, k) :- DecodePairs(s[h..], n, depth + 1); Got(Map(pairs), h + k)
    else DecodeScalar(s)
  }

  function DecodeItems(s: seq<byte>, n: nat, depth: nat): (r: Read<seq<Value>>)
    ensures r.Got? ==> r.used <= |s| && |r.value| == n
    decreases |s|, 1, n
  {
    if n == 0 then Got([], 0)
    else
      var (v, k) :- Decode(s, depth);
      var (more, m) :- DecodeItems(s[k..], n - 1, depth);
      Got([v] + more, k + m)
  }

  function DecodeEntry(s: seq<byte>, depth: nat): (r: Read<Entry>)
    ensures r.Got? ==> 1 <= r.used <= |s|
    decreases |s|, 1, 0
  {
    var (key, j) :- Decode(s, depth);
    var (val, k) :- Decode(s[j..], depth);
    Got(Entry(key, val), j + k)
  }

  function DecodePairs(s: seq<byte>, n: nat, depth: nat): (r: Read<seq<Entry>>)
    ensures r.Got? ==> r.used <= |s| && |r.value| == n
    decreases |s|, 2, n
  {
    if n == 0 then Got([], 0)
    else
      var (e, k) :- DecodeEntry(s, depth);
      var (more, m) :- DecodePairs(s[k..], n - 1, depth);
      Got([e] + more, k + m)
  }
}
