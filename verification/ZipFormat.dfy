/** Stored ZIP archives (sections 4.3.7, 4.3.12 and 4.3.16 of the PKWARE APPNOTE): what the writer
    of saved documents puts into one, how a reader finds the parts from the end of the
    archive, and the word processor's own search from its start. */
module ZipFormat {
  import opened Bits
  import opened LittleEndian
  import opened Basics
  import opened DocxText

  const LOCAL_SIG: Bytes := "PK\U{0003}\U{0004}"
  const CENTRAL_SIG: Bytes := "PK\U{0001}\U{0002}"
  const END_SIG: Bytes := "PK\U{0005}\U{0006}"

  const LIMIT32: nat := 0x1_0000_0000

  // ----- numbers -----

  function AsChars(b: seq<byte>): (x: Bytes)
    ensures |x| == |b| && forall i :: 0 <= i < |b| ==> x[i] as int == b[i]
  {
    seq(|b|, i requires 0 <= i < |b| => b[i] as char)
  }

  function AsBytes(x: Bytes): (b: seq<byte>)
    ensures |b| == |x| && forall i :: 0 <= i < |x| ==> b[i] == x[i] as int
  {
    seq(|x|, i requires 0 <= i < |x| => x[i] as int)
  }

  function Le(v: nat, n: nat): (x: Bytes)
    ensures |x| == n
  {
    AsChars(LittleEndian.Le(v, n))
  }

  function FromLe(x: Bytes): (v: nat) { LittleEndian.FromLe(AsBytes(x)) }

  lemma FromLeOfLe(v: nat, n: nat)
    requires v < Pow256(n)
    ensures FromLe(Le(v, n)) == v
  {
    LittleEndian.FromLeOfLe(v, n);
    assert AsBytes(AsChars(LittleEndian.Le(v, n))) == LittleEndian.Le(v, n);
  }

  function Zeros(n: nat): (x: Bytes)
    ensures |x| == n
  {
    AsChars(LittleEndian.Zeros(n))
  }

  lemma Numbers(short: nat, long: nat)
    requires short < 0x1_0000 && long < LIMIT32
    ensures FromLe(Le(short, 2)) == short && FromLe(Le(long, 4)) == long
    ensures FromLe(Zeros(2)) == 0 && FromLe(Zeros(4)) == 0
  {
    assert Pow256(4) == LIMIT32 && Pow256(2) == 0x1_0000;
    FromLeOfLe(long, 4);
    FromLeOfLe(short, 2);
    assert AsBytes(Zeros(2)) == [0, 0] && [0, 0][1..] == [0] && [0][1..] == [];
    assert AsBytes(Zeros(4)) == [0, 0, 0, 0] && [0, 0, 0, 0][1..] == [0, 0, 0] && [0, 0, 0][1..] == [0, 0];
  }

  // ----- what is written -----

  /** The thirty bytes before a stored file: sizes at 18 and 22, name length at 26. */
  function LocalHeader(nameLen: nat, size: nat): (x: Bytes)
    ensures |x| == 30
  {
    LOCAL_SIG + ([10 as char, 0 as char] + Zeros(12)) + Le(size, 4) + Le(size, 4) + Le(nameLen, 2) + Zeros(2)
  }

  function LocalFile(name: Bytes, data: Bytes): (x: Bytes) {
    LocalHeader(|name|, |data|) + name + data
  }

  /** The directory entry of a file whose local header is at `at`. */
  function CentralRecord(name: Bytes, size: nat, at: nat): (x: Bytes)
    ensures |x| == 46 + |name|
  {
    CENTRAL_SIG + ([20 as char, 0 as char, 10 as char, 0 as char] + Zeros(12)) + Le(size, 4) + Le(size, 4)
      + Le(|name|, 2) + Zeros(12) + Le(at, 4) + name
  }

  function EndRecord(count: nat, cdSize: nat, cdStart: nat): (x: Bytes)
    ensures |x| == 22
  {
    END_SIG + Zeros(4) + Le(count, 2) + Le(count, 2) + Le(cdSize, 4) + Le(cdStart, 4) + Zeros(2)
  }

  datatype Part = Part(name: Bytes, data: Bytes)

  function Locals(ps: seq<Part>): (x: Bytes) {
    if ps == [] then [] else LocalFile(ps[0].name, ps[0].data) + Locals(ps[1..])
  }

  /** The directory of files that stand one after the other from `at` on. */
  function Directory(ps: seq<Part>, at: nat): (x: Bytes)
    decreases |ps|
  {
    if ps == [] then []
    else
      var p := ps[0];
      CentralRecord(p.name, |p.data|, at) + Directory(ps[1..], at + |LocalFile(p.name, p.data)|)
  }

  function Archive(ps: seq<Part>): (x: Bytes) {
    Locals(ps) + Directory(ps, 0) + EndRecord(|ps|, |Directory(ps, 0)|, |Locals(ps)|)
  }

  lemma {:induction false} LocalsMore(ps: seq<Part>, p: Part)
    ensures Locals(ps + [p]) == Locals(ps) + LocalFile(p.name, p.data)
    decreases |ps|
  {
    hide LocalFile;
    if ps == [] {
      assert (ps + [p])[1..] == [];
      assert LocalFile(p.name, p.data) + [] == [] + LocalFile(p.name, p.data);
    } else {
      assert (ps + [p])[1..] == ps[1..] + [p];
      LocalsMore(ps[1..], p);
      Assoc(LocalFile(ps[0].name, ps[0].data), Locals(ps[1..]), LocalFile(p.name, p.data));
    }
  }

  lemma {:induction false} DirectoryMore(ps: seq<Part>, p: Part, at: nat)
    ensures Directory(ps + [p], at) == Directory(ps, at) + CentralRecord(p.name, |p.data|, at + |Locals(ps)|)
    decreases |ps|
  {
    hide LocalFile, CentralRecord;
    if ps == [] {
      assert (ps + [p])[1..] == [];
      var r := CentralRecord(p.name, |p.data|, at);
      assert r + [] == [] + r;
    } else {
      var q := ps[0];
      var next := at + |LocalFile(q.name, q.data)|;
      assert (ps + [p])[1..] == ps[1..] + [p];
      DirectoryMore(ps[1..], p, next);
      Assoc(CentralRecord(q.name, |q.data|, at), Directory(ps[1..], next),
            CentralRecord(p.name, |p.data|, next + |Locals(ps[1..])|));
    }
  }

  // ----- reading from the end -----

  /** The number in n bytes at a place. */
  function Num(z: Bytes, o: nat, n: nat): (v: nat) { if o + n <= |z| then FromLe(z[o..o + n]) else 0 }

  predicate At(z: Bytes, o: nat, x: Bytes) { o + |x| <= |z| && z[o..o + |x|] == x }

  /** A signature: "PK" and two bytes that say of what. */
  predicate Marked(z: Bytes, o: nat, a: nat, b: nat) {
    o + 4 <= |z| && z[o] == 'P' && z[o + 1] == 'K' && z[o + 2] as int == a && z[o + 3] as int == b
  }

  /** The data of a stored file: its header must agree with the directory about name and size. */
  function ReadLocal(z: Bytes, at: nat, name: Bytes, size: nat): (r: Option<Bytes>) {
    if at + 30 > |z| || !Marked(z, at, 3, 4) || Num(z, at + 8, 2) != 0 then None
    else if Num(z, at + 18, 4) != size || Num(z, at + 22, 4) != size || Num(z, at + 26, 2) != |name| then None
    else
      var start := at + 30 + |name| + Num(z, at + 28, 2);
      if At(z, at + 30, name) && start + size <= |z| then Some(z[start..start + size]) else None
  }

  /** The parts listed from a place on, and where the list ends. */
  function ReadRecords(z: Bytes, o: nat, count: nat): (r: Option<(seq<Part>, nat)>)
    decreases count
  {
    if count == 0 then Some(([], o))
    else if o + 46 > |z| || !Marked(z, o, 1, 2) || Num(z, o + 10, 2) != 0 then None
    else
      var size, nameLen := Num(z, o + 20, 4), Num(z, o + 28, 2);
      var next := o + 46 + nameLen + Num(z, o + 30, 2) + Num(z, o + 32, 2);
      if next > |z| || Num(z, o + 24, 4) != size then None
      else
        var name := z[o + 46..o + 46 + nameLen];
        match ReadLocal(z, Num(z, o + 42, 4), name, size)
        case None => None
        case Some(data) =>
          (match ReadRecords(z, next, count - 1)
           case None => None
           case Some((ps, end)) => Some(([Part(name, data)] + ps, end)))
  }

  /** A reader of stored archives: the end record names the directory, which must reach up to it,
      and the directory names the files. */
  function ReadZip(z: Bytes): (r: Option<seq<Part>>) {
    if |z| < 22 || !Marked(z, |z| - 22, 5, 6) then None
    else
      var e := |z| - 22;
      var count, size, start := Num(z, e + 8, 2), Num(z, e + 12, 4), Num(z, e + 16, 4);
      if Num(z, e + 4, 4) != 0 || Num(z, e + 10, 2) != count || Num(z, e + 20, 2) != 0 || start + size != e then None
      else match ReadRecords(z, start, count)
        case None => None
        case Some((ps, end)) => if end == e then Some(ps) else None
  }

  /** A field of a block that stands somewhere in a file. */
  lemma Inside(a: Bytes, m: Bytes, c: Bytes, o: nat, n: nat)
    requires o + n <= |m|
    ensures (a + m + c)[|a| + o..|a| + o + n] == m[o..o + n]
  {}

  lemma MarkInside(a: Bytes, m: Bytes, c: Bytes, x: nat, y: nat)
    requires Marked(m, 0, x, y)
    ensures Marked(a + m + c, |a|, x, y)
  {}

  lemma NumInside(a: Bytes, m: Bytes, c: Bytes, o: nat, n: nat)
    requires o + n <= |m|
    ensures Num(a + m + c, |a| + o, n) == Num(m, o, n)
  {
    Inside(a, m, c, o, n);
  }

  lemma LocalFields(nameLen: nat, size: nat)
    requires nameLen < 0x1_0000 && size < LIMIT32
    ensures var h := LocalHeader(nameLen, size);
            && h[..4] == LOCAL_SIG && Marked(h, 0, 3, 4) && Num(h, 8, 2) == 0
            && Num(h, 18, 4) == size && Num(h, 22, 4) == size
            && Num(h, 26, 2) == nameLen && Num(h, 28, 2) == 0
  {
    hide Le, FromLe, Zeros;
    var h := LocalHeader(nameLen, size);
    assert h[..4] == LOCAL_SIG && h[0] == 'P' && h[1] == 'K' && h[2] as int == 3 && h[3] as int == 4;
    assert h[18..22] == Le(size, 4) && h[22..26] == Le(size, 4);
    assert h[26..28] == Le(nameLen, 2);
    assert h[28..30] == Zeros(2);
    assert h[8..10] == Zeros(12)[2..4];
    ZeroPair(12, 2);
    Numbers(nameLen, size);
  }

  lemma ZeroPair(n: nat, o: nat)
    requires o + 2 <= n
    ensures Zeros(n)[o..o + 2] == Zeros(2)
  {}

  lemma CentralFields(name: Bytes, size: nat, at: nat)
    requires |name| < 0x1_0000 && size < LIMIT32 && at < LIMIT32
    ensures var r := CentralRecord(name, size, at);
            && Marked(r, 0, 1, 2) && Num(r, 10, 2) == 0 && Num(r, 20, 4) == size && Num(r, 24, 4) == size
            && Num(r, 28, 2) == |name| && Num(r, 30, 2) == 0 && Num(r, 32, 2) == 0 && Num(r, 42, 4) == at
            && r[46..46 + |name|] == name
  {
    hide Le, FromLe, Zeros;
    var r := CentralRecord(name, size, at);
    var v := CENTRAL_SIG + ([20 as char, 0 as char, 10 as char, 0 as char] + Zeros(12));
    assert r == v + Le(size, 4) + Le(size, 4) + Le(|name|, 2) + Zeros(12) + Le(at, 4) + name;
    assert r[0] == 'P' && r[1] == 'K' && r[2] as int == 1 && r[3] as int == 2;
    assert r[20..24] == Le(size, 4) && r[24..28] == Le(size, 4);
    assert r[28..30] == Le(|name|, 2);
    assert r[10..12] == Zeros(12)[2..4] && r[30..32] == Zeros(12)[0..2] && r[32..34] == Zeros(12)[2..4];
    assert r[42..46] == Le(at, 4);
    assert r[46..46 + |name|] == name;
    ZeroPair(12, 0);
    ZeroPair(12, 2);
    Numbers(|name|, size);
    Numbers(|name|, at);
  }

  lemma EndFields(count: nat, size: nat, start: nat)
    requires count < 0x1_0000 && size < LIMIT32 && start < LIMIT32
    ensures var e := EndRecord(count, size, start);
            && Marked(e, 0, 5, 6) && Num(e, 4, 4) == 0 && Num(e, 8, 2) == count && Num(e, 10, 2) == count
            && Num(e, 12, 4) == size && Num(e, 16, 4) == start && Num(e, 20, 2) == 0
  {
    hide Le, FromLe, Zeros;
    var e := EndRecord(count, size, start);
    assert e[0] == 'P' && e[1] == 'K' && e[2] as int == 5 && e[3] as int == 6 && e[4..8] == Zeros(4);
    assert e[8..10] == Le(count, 2) && e[10..12] == Le(count, 2);
    assert e[12..16] == Le(size, 4) && e[16..20] == Le(start, 4) && e[20..22] == Zeros(2);
    Numbers(count, size);
    Numbers(count, start);
  }

  /** A stored file is read wherever it stands. */
  lemma LocalRead(a: Bytes, p: Part, c: Bytes)
    requires |p.name| < 0x1_0000 && |p.data| < LIMIT32
    ensures ReadLocal(a + LocalFile(p.name, p.data) + c, |a|, p.name, |p.data|) == Some(p.data)
  {
    hide LocalHeader, Num;
    var h := LocalHeader(|p.name|, |p.data|);
    var rest := p.name + p.data + c;
    var z := a + LocalFile(p.name, p.data) + c;
    assert z == a + h + rest by { Assoc(h, p.name, p.data); Shape(a, h, p.name, p.data, c); }
    LocalFields(|p.name|, |p.data|);
    MarkInside(a, h, rest, 3, 4);
    NumInside(a, h, rest, 8, 2);
    NumInside(a, h, rest, 18, 4);
    NumInside(a, h, rest, 22, 4);
    NumInside(a, h, rest, 26, 2);
    NumInside(a, h, rest, 28, 2);
    NameAndData(a + h, p.name, p.data, c);
  }

  lemma Shape(a: Bytes, h: Bytes, name: Bytes, data: Bytes, c: Bytes)
    ensures a + (h + name + data) + c == a + h + (name + data + c)
  {}

  lemma NameAndData(a: Bytes, name: Bytes, data: Bytes, c: Bytes)
    ensures var z := a + (name + data + c);
            && z[|a|..|a| + |name|] == name && |a| + |name| + |data| <= |z|
            && z[|a| + |name|..|a| + |name| + |data|] == data
  {}

  /** Files below the limits of the format. */
  ghost predicate Small(ps: seq<Part>) {
    forall p :: p in ps ==> |p.name| < 0x1_0000 && |p.data| < LIMIT32
  }

  /** Reading the directory of files that stand after `a`, with the directory entries of
      files before them in `b`. */
  lemma {:induction false} RecordsRead(z: Bytes, a: Bytes, ps: seq<Part>, b: Bytes, c: Bytes)
    requires Small(ps) && |a| + |Locals(ps)| < LIMIT32 && z == a + Locals(ps) + (b + Directory(ps, |a|) + c)
    ensures var o := |a| + |Locals(ps)| + |b|;
            ReadRecords(z, o, |ps|) == Some((ps, o + |Directory(ps, |a|)|))
    decreases |ps|
  {
    hide LocalFile, CentralRecord, ReadLocal, ReadRecords, Locals, Directory, Small;
    if ps == [] {
      NoRecords(z, |a| + |Locals(ps)| + |b|, |a|);
    } else {
      var p, more := ps[0], ps[1..];
      var f, r := LocalFile(p.name, p.data), CentralRecord(p.name, |p.data|, |a|);
      var l, d := Locals(more), Directory(more, |a| + |f|);
      FirstPart(ps, |a|);
      Reorder(a, f, l, b, r, d, c);
      RecordsRead(z, a + f, more, b + r, c);
      OneRecord(z, a + (f + l) + b, p, |a|, d + c, |ps|);
      LocalRead(a, p, l + (b + r + d + c));
      assert ps == [p] + more;
    }
  }

  lemma NoRecords(z: Bytes, o: nat, at: nat)
    ensures ReadRecords(z, o, 0) == Some(([], o)) && Directory([], at) == []
  {}

  lemma FirstPart(ps: seq<Part>, at: nat)
    requires ps != [] && Small(ps)
    ensures var p := ps[0];
            var f := LocalFile(p.name, p.data);
            && Locals(ps) == f + Locals(ps[1..])
            && Directory(ps, at) == CentralRecord(p.name, |p.data|, at) + Directory(ps[1..], at + |f|)
            && |p.name| < 0x1_0000 && |p.data| < LIMIT32 && Small(ps[1..])
  {
    hide LocalFile, CentralRecord;
    assert ps[0] in ps;
  }

  lemma Reorder(a: Bytes, f: Bytes, l: Bytes, b: Bytes, r: Bytes, d: Bytes, c: Bytes)
    ensures a + (f + l) + (b + (r + d) + c) == a + f + l + (b + r + d + c)
    ensures a + (f + l) + (b + (r + d) + c) == (a + (f + l) + b) + r + (d + c)
    ensures a + (f + l) + (b + (r + d) + c) == a + f + (l + (b + r + d + c))
  {}

  /** The first record of a list of them. */
  lemma OneRecord(z: Bytes, a: Bytes, p: Part, at: nat, c: Bytes, count: nat)
    requires |p.name| < 0x1_0000 && |p.data| < LIMIT32 && at < LIMIT32 && count > 0
    requires z == a + CentralRecord(p.name, |p.data|, at) + c
    ensures ReadRecords(z, |a|, count) ==
            match ReadLocal(z, at, p.name, |p.data|)
            case None => None
            case Some(data) =>
              (match ReadRecords(z, |a| + |CentralRecord(p.name, |p.data|, at)|, count - 1)
               case None => None
               case Some((ps, end)) => Some(([Part(p.name, data)] + ps, end)))
  {
    hide CentralRecord, ReadLocal, Num, Marked;
    RecordFields(a, p, at, c);
    assert |z| == |a| + |CentralRecord(p.name, |p.data|, at)| + |c|;
  }

  /** The fields of a record that stands somewhere. */
  lemma RecordFields(a: Bytes, p: Part, at: nat, c: Bytes)
    requires |p.name| < 0x1_0000 && |p.data| < LIMIT32 && at < LIMIT32
    ensures var o, z := |a|, a + CentralRecord(p.name, |p.data|, at) + c;
            && Marked(z, o, 1, 2) && Num(z, o + 10, 2) == 0 && Num(z, o + 20, 4) == |p.data| == Num(z, o + 24, 4)
            && Num(z, o + 28, 2) == |p.name| && Num(z, o + 30, 2) == 0 == Num(z, o + 32, 2)
            && Num(z, o + 42, 4) == at && z[o + 46..o + 46 + |p.name|] == p.name
  {
    hide CentralRecord, Num, Marked;
    var r := CentralRecord(p.name, |p.data|, at);
    CentralFields(p.name, |p.data|, at);
    MarkInside(a, r, c, 1, 2);
    Inside(a, r, c, 46, |p.name|);
    NumInside(a, r, c, 10, 2);
    NumInside(a, r, c, 20, 4);
    NumInside(a, r, c, 24, 4);
    NumInside(a, r, c, 28, 2);
    NumInside(a, r, c, 30, 2);
    NumInside(a, r, c, 32, 2);
    NumInside(a, r, c, 42, 4);
  }

  /** What archives are for: reading one from its end gives the parts that were written. */
  lemma ArchiveReads(ps: seq<Part>)
    requires Small(ps) && |ps| < 0x1_0000 && |Archive(ps)| < LIMIT32
    ensures ReadZip(Archive(ps)) == Some(ps)
  {
    hide Locals, Directory, EndRecord, ReadRecords, Num, Small;
    var l, d := Locals(ps), Directory(ps, 0);
    var e := EndRecord(|ps|, |d|, |l|);
    var z := l + d + e;
    EndFields(|ps|, |d|, |l|);
    assert z == l + d + e + [];
    MarkInside(l + d, e, [], 5, 6);
    NumInside(l + d, e, [], 4, 4);
    NumInside(l + d, e, [], 8, 2);
    NumInside(l + d, e, [], 10, 2);
    NumInside(l + d, e, [], 12, 4);
    NumInside(l + d, e, [], 16, 4);
    NumInside(l + d, e, [], 20, 2);
    assert z == [] + l + ([] + d + e);
    RecordsRead(z, [], ps, [], e);
  }

  // ----- the word processor's search -----

  const DOC_NAME: Bytes := "word/document.xml"

  /** The first stored file of the document's name, by hopping from header to header. */
  function FindXml(z: Bytes): (r: Option<Bytes>)
    decreases |z|
  {
    if |z| < 30 then None
    else if z[..4] == LOCAL_SIG then
      var size, nameLen, extra := FromLe(z[18..22]), FromLe(z[26..28]), FromLe(z[28..30]);
      var start := 30 + nameLen + extra;
      if 30 + nameLen <= |z| && z[30..30 + nameLen] == DOC_NAME && start + size <= |z| then Some(z[start..start + size])
      else if start + size <= |z| then FindXml(z[start + size..])
      else None
    else FindXml(z[1..])
  }

  /** A file of any archive: whatever else its header says, it is returned if it has the
      document's name and skipped if not. */
  lemma FindInAny(h: Bytes, name: Bytes, extra: Bytes, data: Bytes, rest: Bytes)
    requires |h| == 30 && h[..4] == LOCAL_SIG && Num(h, 18, 4) == |data|
    requires Num(h, 26, 2) == |name| && Num(h, 28, 2) == |extra|
    ensures FindXml(h + name + extra + data + rest) == if name == DOC_NAME then Some(data) else FindXml(rest)
  {
    hide FromLe;
    var z := h + name + extra + data + rest;
    assert z[..4] == h[..4];
    assert z[18..22] == h[18..22] && z[26..28] == h[26..28] && z[28..30] == h[28..30];
    assert z[30..30 + |name|] == name;
    var start := 30 + |name| + |extra|;
    assert z[start..start + |data|] == data;
    assert z[start + |data|..] == rest;
  }

  /** A file whose data is cut off is not returned, and nothing behind it is. */
  lemma FindNothingCut(h: Bytes, more: Bytes)
    requires |h| == 30 && h[..4] == LOCAL_SIG
    requires Num(h, 26, 2) + Num(h, 28, 2) + Num(h, 18, 4) > |more|
    ensures FindXml(h + more) == None
  {
    hide FromLe;
    var z := h + more;
    assert z[..4] == h[..4];
    assert z[18..22] == h[18..22] && z[26..28] == h[26..28] && z[28..30] == h[28..30];
  }

  /** Bytes between files are skipped up to the next signature. */
  lemma {:induction false} FindSkips(junk: Bytes, rest: Bytes)
    requires forall i :: 0 <= i < |junk| ==> !At(junk + rest, i, LOCAL_SIG)
    ensures FindXml(junk + rest) == if |rest| < 30 then None else FindXml(rest)
    decreases |junk|
  {
    hide FromLe;
    if junk == [] {
      assert junk + rest == rest;
    } else {
      var z := junk + rest;
      assert z[1..] == junk[1..] + rest;
      forall i | 0 <= i < |junk[1..]| ensures !At(junk[1..] + rest, i, LOCAL_SIG) {
        assert !At(z, i + 1, LOCAL_SIG);
        if i + 1 + 4 <= |z| { assert z[1..][i..i + 4] == z[i + 1..i + 5]; }
      }
      FindSkips(junk[1..], rest);
      assert !At(z, 0, LOCAL_SIG);
    }
  }

  /** The data of the first part of the document's name. */
  function FirstDocument(ps: seq<Part>): (r: Option<Bytes>) {
    if ps == [] then None else if ps[0].name == DOC_NAME then Some(ps[0].data) else FirstDocument(ps[1..])
  }

  lemma {:induction false} FindInLocals(ps: seq<Part>, rest: Bytes)
    requires Small(ps)
    ensures FindXml(Locals(ps) + rest) == match FirstDocument(ps) case Some(x) => Some(x) case None => FindXml(rest)
    decreases |ps|
  {
    hide LocalHeader, FindXml, Num;
    if ps == [] {
      assert [] + rest == rest;
    } else {
      var p := ps[0];
      assert p in ps;
      var h, more := LocalHeader(|p.name|, |p.data|), Locals(ps[1..]) + rest;
      LocalFields(|p.name|, |p.data|);
      FindInAny(h, p.name, [], p.data, more);
      assert Locals(ps) + rest == h + p.name + [] + p.data + more;
      FindInLocals(ps[1..], rest);
    }
  }

  /** The search and the directory agree: in an archive that has the document, both find the same. */
  lemma FindInArchive(ps: seq<Part>)
    requires Small(ps) && FirstDocument(ps).Some?
    ensures FindXml(Archive(ps)) == FirstDocument(ps)
  {
    hide Locals, Directory, EndRecord, FindXml, Small;
    var d := Directory(ps, 0);
    FindInLocals(ps, d + EndRecord(|ps|, |d|, |Locals(ps)|));
    Assoc(Locals(ps), d, EndRecord(|ps|, |d|, |Locals(ps)|));
  }
}
