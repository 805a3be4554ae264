/** The bytes of an encoding decide its value and where it ends, for every value that can be
    encoded: extensions, which the decoder does not read, and any nesting included. */
module SmartPackUnique {
  import opened Basics
  import opened Bits
  import opened LittleEndian
  import opened SmartPack
  import opened SmartPackLaws

  /** Every extension payload has a length of 64 bits, as memory does. */
  predicate Sized(v: Value) {
    match v
    case Extension(_, d) => |d| < 0x1_0000_0000_0000_0000
    case Array(items) => SizedItems(items)
    case Map(pairs) => SizedPairs(pairs)
    case _ => true
  }

  predicate SizedItems(items: seq<Value>) {
    items == [] || (Sized(items[0]) && SizedItems(items[1..]))
  }

  predicate SizedEntry(e: Entry) { Sized(e.key) && Sized(e.val) }

  predicate SizedPairs(pairs: seq<Entry>) {
    pairs == [] || (SizedEntry(pairs[0]) && SizedPairs(pairs[1..]))
  }

  lemma Cancel(a: seq<byte>, s: seq<byte>, b: seq<byte>, t: seq<byte>)
    requires a + s == b + t && |a| == |b|
    ensures a == b && s == t
  {
    assert a == (a + s)[..|a|] && b == (b + t)[..|b|];
    assert s == (a + s)[|a|..] && t == (b + t)[|b|..];
  }

  lemma UniqueUint(m: u64, n: u64, s: seq<byte>, t: seq<byte>)
    requires EncodeUint(m) + s == EncodeUint(n) + t
    ensures m == n && s == t
  {
    hide EncodeUint, DecodeScalar;
    UintRoundTrip(m, s);
    UintRoundTrip(n, t);
    Cancel(EncodeUint(m), s, EncodeUint(n), t);
  }

  lemma UniqueExtension(v: Value, w: Value, s: seq<byte>, t: seq<byte>)
    requires v.Extension? && w.Extension? && Sized(v) && Sized(w)
    requires Encode(v).value + s == Encode(w).value + t
    ensures v == w && s == t
  {
    hide EncodeUint;
    var m, n := |v.payload|, |w.payload|;
    var a, b := EncodeUint(m) + v.payload, EncodeUint(n) + w.payload;
    assert Encode(v).value + s == [TAG_EXT, v.typeId] + (EncodeUint(m) + (v.payload + s));
    assert Encode(w).value + t == [TAG_EXT, w.typeId] + (EncodeUint(n) + (w.payload + t));
    Cancel([TAG_EXT, v.typeId], EncodeUint(m) + (v.payload + s), [TAG_EXT, w.typeId], EncodeUint(n) + (w.payload + t));
    assert [TAG_EXT, v.typeId][1] == [TAG_EXT, w.typeId][1];
    UniqueUint(m, n, v.payload + s, w.payload + t);
    Cancel(v.payload, s, w.payload, t);
  }

  lemma UniqueScalar(v: Value, w: Value, s: seq<byte>, t: seq<byte>)
    requires !Container(v) && !Container(w) && Sized(v) && Sized(w) && Encode(v).Ok? && Encode(w).Ok?
    requires Encode(v).value + s == Encode(w).value + t
    ensures Narrow(v) == Narrow(w) && s == t
  {
    hide Encode, DecodeScalar;
    ScalarRoundTrip(v, s);
    ScalarRoundTrip(w, t);
    ScalarReread(v);
    ScalarReread(w);
    if v.Extension? {
      UniqueExtension(v, w, s, t);
    } else {
      Cancel(Encode(v).value, s, Encode(w).value, t);
    }
  }

  lemma ScalarReread(v: Value)
    requires !Container(v)
    ensures Reread(v, 0) == if v.Extension? then Err(InvalidTag(TAG_EXT)) else Ok(Narrow(v))
  {}

  /** The count and the body of an array or a map. */
  function Body(v: Value): (b: Encoded)
    requires Container(v)
  {
    if v.Array? then EncodeItems(v.items) else EncodePairs(v.pairs)
  }

  function Size(v: Value): (n: nat)
    requires Container(v)
  {
    if v.Array? then |v.items| else |v.pairs|
  }

  function Base(v: Value): (b: byte)
    requires Container(v)
  {
    if v.Array? then FIXARRAY_BASE else FIXMAP_BASE
  }

  lemma ContainerParts(v: Value, s: seq<byte>)
    requires Container(v) && Encode(v).Ok?
    ensures Body(v).Ok? && Size(v) <= MAX_LEN32
    ensures Encode(v).value + s == EncodeLen(Base(v), Size(v)) + (Body(v).value + s)
  {
    hide EncodeLen, EncodeItems, EncodePairs;
    Assoc(EncodeLen(Base(v), Size(v)), Body(v).value, s);
  }

  /** Two containers with the same bytes are of one kind and count, and their bodies agree. */
  lemma SameHeader(v: Value, w: Value, s: seq<byte>, t: seq<byte>)
    requires Container(v) && Container(w) && Encode(v).Ok? && Encode(w).Ok?
    requires Encode(v).value + s == Encode(w).value + t
    ensures Body(v).Ok? && Body(w).Ok? && Base(v) == Base(w) && Size(v) == Size(w)
    ensures Body(v).value + s == Body(w).value + t
  {
    hide Encode, Body, EncodeLen, DecodeLen, Size;
    ContainerParts(v, s);
    ContainerParts(w, t);
    LenRoundTrip(Base(v), Size(v), Body(v).value + s);
    LenRoundTrip(Base(w), Size(w), Body(w).value + t);
    Cancel(EncodeLen(Base(v), Size(v)), Body(v).value + s, EncodeLen(Base(w), Size(w)), Body(w).value + t);
  }

  /** A container does not begin like a scalar. */
  lemma OtherKind(v: Value, w: Value, s: seq<byte>, t: seq<byte>)
    requires Container(v) && !Container(w) && Encode(v).Ok? && Encode(w).Ok?
    ensures Encode(v).value + s != Encode(w).value + t
  {
    hide Encode, Body, EncodeLen, DecodeLen, DecodeScalar, Size, Reread;
    ContainerParts(v, s);
    LenRoundTrip(Base(v), Size(v), Body(v).value + s);
    ScalarRoundTrip(w, t);
  }

  /** No encoding is a proper beginning of another, and equal encodings are of values that
      differ in integer widths only. */
  lemma {:induction false} UniqueParse(v: Value, w: Value, s: seq<byte>, t: seq<byte>)
    requires Sized(v) && Sized(w) && Encode(v).Ok? && Encode(w).Ok?
    requires Encode(v).value + s == Encode(w).value + t
    ensures Narrow(v) == Narrow(w) && s == t
    decreases v
  {
    hide Encode, EncodeItems, EncodePairs;
    if !Container(v) {
      if Container(w) { OtherKind(w, v, t, s); }
      UniqueScalar(v, w, s, t);
    } else {
      if !Container(w) { OtherKind(v, w, s, t); }
      SameHeader(v, w, s, t);
      if v.Array? {
        UniqueItems(v.items, w.items, s, t);
      } else {
        UniquePairs(v.pairs, w.pairs, s, t);
      }
    }
  }

  lemma {:induction false} UniqueItems(a: seq<Value>, b: seq<Value>, s: seq<byte>, t: seq<byte>)
    requires |a| == |b| && SizedItems(a) && SizedItems(b) && EncodeItems(a).Ok? && EncodeItems(b).Ok?
    requires EncodeItems(a).value + s == EncodeItems(b).value + t
    ensures NarrowItems(a) == NarrowItems(b) && s == t
    decreases a
  {
    hide Encode, Narrow, Sized;
    if a == [] {
      assert [] + s == s && [] + t == t;
    } else {
      var x, y := EncodeItems(a[1..]).value, EncodeItems(b[1..]).value;
      Assoc(Encode(a[0]).value, x, s);
      Assoc(Encode(b[0]).value, y, t);
      UniqueParse(a[0], b[0], x + s, y + t);
      UniqueItems(a[1..], b[1..], s, t);
    }
  }

  lemma {:induction false} UniqueEntry(a: Entry, b: Entry, s: seq<byte>, t: seq<byte>)
    requires SizedEntry(a) && SizedEntry(b) && EncodeEntry(a).Ok? && EncodeEntry(b).Ok?
    requires EncodeEntry(a).value + s == EncodeEntry(b).value + t
    ensures NarrowEntry(a) == NarrowEntry(b) && s == t
    decreases a
  {
    hide Encode, Narrow, Sized;
    var x, y := Encode(a.val).value, Encode(b.val).value;
    Assoc(Encode(a.key).value, x, s);
    Assoc(Encode(b.key).value, y, t);
    UniqueParse(a.key, b.key, x + s, y + t);
    UniqueParse(a.val, b.val, s, t);
  }

  lemma {:induction false} UniquePairs(a: seq<Entry>, b: seq<Entry>, s: seq<byte>, t: seq<byte>)
    requires |a| == |b| && SizedPairs(a) && SizedPairs(b) && EncodePairs(a).Ok? && EncodePairs(b).Ok?
    requires EncodePairs(a).value + s == EncodePairs(b).value + t
    ensures NarrowPairs(a) == NarrowPairs(b) && s == t
    decreases a
  {
    hide EncodeEntry, NarrowEntry, SizedEntry;
    if a == [] {
      assert [] + s == s && [] + t == t;
    } else {
      var x, y := EncodePairs(a[1..]).value, EncodePairs(b[1..]).value;
      Assoc(EncodeEntry(a[0]).value, x, s);
      Assoc(EncodeEntry(b[0]).value, y, t);
      UniqueEntry(a[0], b[0], x + s, y + t);
      UniquePairs(a[1..], b[1..], s, t);
    }
  }
}
