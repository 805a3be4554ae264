/** Well-formed UTF-8 is what encodes a text: the byte patterns of the decoder's check are those of
    the encoded scalar values, and no others. */
module Utf8Laws {
  import opened Bits
  import opened Utf8

  /** A Unicode scalar value. */
  type Scalar = c: nat | c < 0xD800 || 0xE000 <= c < 0x11_0000

  /** The encoding of one scalar value, six bits to a byte after the first. */
  function EncodeScalar(c: Scalar): (b: seq<byte>) {
    if c < 0x80 then [c]
    else if c < 0x800 then [0xC0 + c / 64, 0x80 + c % 64]
    else if c < 0x1_0000 then [0xE0 + c / 4096, 0x80 + c / 64 % 64, 0x80 + c % 64]
    else [0xF0 + c / 262144, 0x80 + c / 4096 % 64, 0x80 + c / 64 % 64, 0x80 + c % 64]
  }

  function EncodeText(t: seq<Scalar>): (b: seq<byte>) {
    if t == [] then [] else EncodeScalar(t[0]) + EncodeText(t[1..])
  }

  lemma ScalarIsChar(c: Scalar, rest: seq<byte>)
    ensures CharLen(EncodeScalar(c) + rest) == |EncodeScalar(c)| > 0
  {
    var b := EncodeScalar(c);
    var s := b + rest;
    assert forall i :: 0 <= i < |b| ==> s[i] == b[i];
    if c < 0x80 {
    } else if c < 0x800 {
      assert 2 <= c / 64 < 32;
    } else if c < 0x1_0000 {
      assert c / 4096 < 16;
      if c / 4096 == 0 { assert c / 64 % 64 >= 32; }
      if c / 4096 == 13 { assert c / 64 % 64 < 32; }
    } else {
      assert c / 262144 <= 4;
      if c / 262144 == 0 { assert c / 4096 % 64 >= 16; }
      if c / 262144 == 4 { assert c / 4096 % 64 < 16; }
    }
  }

  /** The scalar value of a character found at the front. */
  lemma CharIsScalar(s: seq<byte>) returns (c: Scalar)
    requires CharLen(s) > 0
    ensures EncodeScalar(c) == s[..CharLen(s)]
  {
    var n := CharLen(s);
    if n == 1 {
      c := s[0];
    } else if n == 2 {
      c := (s[0] as int - 0xC0) * 64 + (s[1] - 0x80);
    } else if n == 3 {
      c := ThreeBytes(s[0], s[1], s[2]);
    } else {
      c := FourBytes(s[0], s[1], s[2], s[3]);
    }
  }

  lemma ThreeBytes(a: byte, b: byte, d: byte) returns (c: Scalar)
    requires 0xE0 <= a <= 0xEF && Tail(b) && Tail(d) && (a == 0xE0 ==> 0xA0 <= b) && (a == 0xED ==> b <= 0x9F)
    ensures EncodeScalar(c) == [a, b, d]
  {
    var hi: int := (a as int - 0xE0) * 64 + (b - 0x80);
    var v: int := hi * 64 + (d - 0x80);
    assert v / 64 == hi && v % 64 == d - 0x80 && hi % 64 == b - 0x80 && v / 4096 == a - 0xE0;
    assert 0x800 <= v < 0x1_0000 && !(0xD800 <= v < 0xE000);
    c := v;
  }

  lemma FourBytes(a: byte, b: byte, d: byte, e: byte) returns (c: Scalar)
    requires 0xF0 <= a <= 0xF4 && Tail(b) && Tail(d) && Tail(e)
    requires (a == 0xF0 ==> 0x90 <= b) && (a == 0xF4 ==> b <= 0x8F)
    ensures EncodeScalar(c) == [a, b, d, e]
  {
    var hi: int := (a as int - 0xF0) * 64 + (b - 0x80);
    var mid: int := hi * 64 + (d - 0x80);
    var v: int := mid * 64 + (e - 0x80);
    assert v / 64 == mid && v % 64 == e - 0x80 && mid % 64 == d - 0x80 && hi % 64 == b - 0x80;
    assert v / 4096 == hi && v / 262144 == a - 0xF0;
    assert 0x1_0000 <= v < 0x11_0000;
    c := v;
  }

  lemma {:induction false} EncodedIsWellFormed(t: seq<Scalar>)
    ensures WellFormed(EncodeText(t))
    decreases |t|
  {
    hide CharLen;
    if t != [] {
      var b := EncodeScalar(t[0]);
      ScalarIsChar(t[0], EncodeText(t[1..]));
      EncodedIsWellFormed(t[1..]);
      assert EncodeText(t)[|b|..] == EncodeText(t[1..]);
    }
  }

  lemma {:induction false} WellFormedIsEncoded(s: seq<byte>) returns (t: seq<Scalar>)
    requires WellFormed(s)
    ensures EncodeText(t) == s
    decreases |s|
  {
    hide CharLen, EncodeScalar;
    if s == [] {
      t := [];
    } else {
      var n := CharLen(s);
      var c := CharIsScalar(s);
      var rest := WellFormedIsEncoded(s[n..]);
      t := [c] + rest;
      assert t[1..] == rest && s == s[..n] + s[n..];
    }
  }

  /** Bytes are well formed if and only if they encode some text. */
  lemma WellFormedExactly(s: seq<byte>)
    ensures WellFormed(s) <==> exists t :: EncodeText(t) == s
  {
    if WellFormed(s) { var t := WellFormedIsEncoded(s); }
    if t :| EncodeText(t) == s { EncodedIsWellFormed(t); }
  }
}
