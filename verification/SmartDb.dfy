/** The append-log document store of the SDK: an index of the latest offset of
    every document, kept while writing and rebuilt by rescanning the file. */
module SmartDb {
  import opened LittleEndian
  import opened Bits
  import opened Utf8
  import opened SmartPack
  import opened SmartPackLaws
  import opened SmartPackCodec

  type Index = map<Text, nat>

  const ID_KEY: seq<byte> := [0x5F, 0x69, 0x64]

  function IdText(): (t: Text) {
    assert ID_KEY[1..][1..][1..] == [];
    assert WellFormed(ID_KEY[1..][1..]) && WellFormed(ID_KEY[1..]);
    ID_KEY
  }

  predicate IsId(e: Entry) {
    e.key == Str(IdText()) && e.val.Str?
  }

  /** The identifiers that a document's pairs name. */
  function Ids(pairs: seq<Entry>): (ids: set<Text>) {
    if pairs == [] then {}
    else (if IsId(pairs[0]) then {pairs[0].val.text} else {}) + Ids(pairs[1..])
  }

  /** Every identifier named by the pairs now lives at `offset`. */
  function AddIds(index: Index, pairs: seq<Entry>, offset: nat): (r: Index)
    decreases |pairs|
  {
    if pairs == [] then index
    else AddIds(if IsId(pairs[0]) then index[pairs[0].val.text := offset] else index, pairs[1..], offset)
  }

  function AddDocument(index: Index, doc: seq<byte>, offset: nat): (r: Index) {
    match Decode(doc, 0)
    case Got(v, _) => if v.Map? then AddIds(index, v.pairs, offset) else index
    case Bad(_) => index
  }

  function Min(a: nat, b: nat): (m: nat) { if a <= b then a else b }

  datatype Scanned = Scanned(index: Index, next: nat)

  /** One pass over the file from `cursor`. A short read leaves the rest of the
      header buffer `h` as it was; a missing document ends the pass. */
  function Scan(file: seq<byte>, cursor: nat, h: seq<byte>, offset: nat, index: Index): (r: Scanned)
    requires cursor <= |file| && |h| == 8
    decreases |file| - cursor
  {
    var n := Min(8, |file| - cursor);
    if n == 0 then Scanned(index, offset)
    else
      var header := file[cursor..cursor + n] + h[n..];
      var len := FromLe(header);
      var n2 := Min(len, |file| - (cursor + n));
      if n2 == 0 then Scanned(index, offset)
      else
        var doc := file[cursor + n..cursor + n + n2] + Zeros(len - n2);
        Scan(file, cursor + n + n2, header, offset + 8 + len, AddDocument(index, doc, offset))
  }

  /** The file from `cursor` is whole frames: an eight-byte length and as many bytes. */
  predicate Frames(file: seq<byte>, cursor: nat)
    requires cursor <= |file|
    decreases |file| - cursor
  {
    cursor == |file| ||
    (cursor + 8 <= |file| &&
     var len := FromLe(file[cursor..cursor + 8]);
     0 < len <= |file| - (cursor + 8) && Frames(file, cursor + 8 + len))
  }

  /** One turn of the scan, from what it reads. */
  lemma ScanTurns(file: seq<byte>, cursor: nat, h: seq<byte>, offset: nat, index: Index,
                  head: seq<byte>, body: seq<byte>)
    requires cursor < |file| && |h| == 8
    requires head == file[cursor..cursor + Min(8, |file| - cursor)]
    requires var at, len := cursor + |head|, FromLe(head + h[|head|..]); body == file[at..at + Min(len, |file| - at)]
    ensures var header := head + h[|head|..];
            var len := FromLe(header);
            Scan(file, cursor, h, offset, index) ==
              if body == [] then Scanned(index, offset)
              else Scan(file, cursor + |head| + |body|, header, offset + 8 + len,
                        AddDocument(index, body + Zeros(len - |body|), offset))
    ensures Frames(file, cursor) ==> body != [] && Frames(file, cursor + |head| + |body|)
  {
    hide FromLe, AddDocument;
    if |head| == 8 { assert head + h[8..] == head; }
  }

  function Frame(doc: seq<byte>): (f: seq<byte>) {
    Le(|doc|, 8) + doc
  }

  // ----- the store as a value -----

  datatype Db = Db(file: seq<byte>, index: Index, next: nat)

  function Open(file: seq<byte>): (db: Db) {
    var s := Scan(file, 0, Zeros(8), 0, map[]);
    Db(file, s.index, s.next)
  }

  function Document(id: Text, document: seq<Entry>): (v: Value) {
    Map(document + [Entry(Str(IdText()), Str(id))])
  }

  /** The index in memory is the one a rescan of the file would build. */
  predicate Consistent(db: Db) {
    db == Open(db.file) && Frames(db.file, 0)
  }

  function PutDb(db: Db, id: Text, document: seq<Entry>): (r: Db)
    requires Encode(Document(id, document)).Ok?
  {
    var encoded := Encode(Document(id, document)).value;
    Db(db.file + Frame(encoded), db.index[id := db.next], db.next + 8 + |encoded|)
  }

  /** A document the rescan will index under its identifier alone. */
  predicate Indexable(id: Text, document: seq<Entry>) {
    && Ids(document) <= {id}
    && Plain(Document(id, document))
    && Nesting(Document(id, document)) <= MAX_DEPTH
  }

  predicate Storable(id: Text, document: seq<Entry>) {
    Encode(Document(id, document)).Ok? && |Encode(Document(id, document)).value| < 0x1_0000_0000_0000_0000
  }

  // ----- scanning -----

  lemma FrameHeader(doc: seq<byte>)
    requires |doc| < 0x1_0000_0000_0000_0000
    ensures Frame(doc)[..8] == Le(|doc|, 8) && Frame(doc)[8..] == doc && FromLe(Le(|doc|, 8)) == |doc|
  {
    hide Le, FromLe, Pow256;
    Widths();
    FromLeOfLe(|doc|, 8);
  }

  lemma ScanFrame(file: seq<byte>, cursor: nat, h: seq<byte>, offset: nat, index: Index, len: nat)
    requires |h| == 8 && len > 0 && cursor + 8 + len <= |file|
    requires FromLe(file[cursor..cursor + 8]) == len
    ensures Scan(file, cursor, h, offset, index) ==
            Scan(file, cursor + 8 + len, file[cursor..cursor + 8], offset + 8 + len,
                 AddDocument(index, file[cursor + 8..cursor + 8 + len], offset))
  {
    hide AddDocument, FromLe;
    var header, doc := file[cursor..cursor + 8], file[cursor + 8..cursor + 8 + len];
    assert header + h[8..] == header;
    assert doc + Zeros(0) == doc;
  }

  /** Scanning whole frames ends at the end, with the offset at the cursor and
      every indexed offset before it. */
  lemma {:induction false} ScanOfFrames(file: seq<byte>, cursor: nat, h: seq<byte>, index: Index)
    requires cursor <= |file| && |h| == 8 && Frames(file, cursor)
    requires forall x :: x in index ==> index[x] < cursor
    ensures var s := Scan(file, cursor, h, cursor, index);
            s.next == |file| && forall x :: x in s.index ==> s.index[x] < |file|
    decreases |file| - cursor
  {
    hide AddDocument, FromLe;
    if cursor < |file| {
      var header := file[cursor..cursor + 8];
      var len := FromLe(header);
      var doc := file[cursor + 8..cursor + 8 + len];
      ScanFrame(file, cursor, h, cursor, index, len);
      AddedOffsets(index, doc, cursor);
      ScanOfFrames(file, cursor + 8 + len, header, AddDocument(index, doc, cursor));
    }
  }

  lemma {:induction false} AddedIds(index: Index, pairs: seq<Entry>, offset: nat)
    ensures AddIds(index, pairs, offset).Keys == index.Keys + Ids(pairs)
    ensures forall x :: x in AddIds(index, pairs, offset) ==>
              AddIds(index, pairs, offset)[x] == if x in Ids(pairs) then offset else index[x]
    decreases |pairs|
  {
    if pairs != [] {
      AddedIds(if IsId(pairs[0]) then index[pairs[0].val.text := offset] else index, pairs[1..], offset);
    }
  }

  lemma AddedOffsets(index: Index, doc: seq<byte>, offset: nat)
    requires forall x :: x in index ==> index[x] < offset
    ensures forall x :: x in AddDocument(index, doc, offset) ==> AddDocument(index, doc, offset)[x] <= offset
  {
    hide Decode, AddIds, Ids;
    var r := Decode(doc, 0);
    if r.Got? && r.value.Map? { AddedIds(index, r.value.pairs, offset); }
  }

  lemma ScanOfLastFrame(file: seq<byte>, doc: seq<byte>, h: seq<byte>, index: Index)
    requires |h| == 8 && 0 < |doc| < 0x1_0000_0000_0000_0000
    ensures Frames(file + Frame(doc), |file|)
    ensures Scan(file + Frame(doc), |file|, h, |file|, index) ==
            Scanned(AddDocument(index, doc, |file|), |file| + 8 + |doc|)
  {
    hide AddDocument, FromLe, Le;
    var file' := file + Frame(doc);
    FrameHeader(doc);
    assert file'[|file|..|file| + 8] == Frame(doc)[..8];
    assert file'[|file| + 8..|file'|] == Frame(doc)[8..];
    ScanFrame(file', |file|, h, |file|, index, |doc|);
  }

  /** Appending a frame to a file of frames adds one document to its scan. */
  lemma {:induction false} ScanOfAppend(file: seq<byte>, doc: seq<byte>, cursor: nat, h: seq<byte>, index: Index)
    requires cursor <= |file| && |h| == 8 && Frames(file, cursor)
    requires 0 < |doc| < 0x1_0000_0000_0000_0000
    ensures Frames(file + Frame(doc), cursor)
    ensures var s := Scan(file, cursor, h, cursor, index);
            Scan(file + Frame(doc), cursor, h, cursor, index) ==
            Scanned(AddDocument(s.index, doc, |file|), |file| + 8 + |doc|)
    decreases |file| - cursor
  {
    hide AddDocument, FromLe, Frame, Scan;
    var file' := file + Frame(doc);
    if cursor == |file| {
      ScanEnd(file, h, cursor, index);
      ScanOfLastFrame(file, doc, h, index);
    } else {
      var header := file[cursor..cursor + 8];
      var len := FromLe(header);
      var d := file[cursor + 8..cursor + 8 + len];
      assert file'[cursor..cursor + 8] == header;
      assert file'[cursor + 8..cursor + 8 + len] == d;
      ScanFrame(file, cursor, h, cursor, index, len);
      ScanFrame(file', cursor, h, cursor, index, len);
      ScanOfAppend(file, doc, cursor + 8 + len, header, AddDocument(index, d, cursor));
    }
  }

  lemma ScanEnd(file: seq<byte>, h: seq<byte>, offset: nat, index: Index)
    requires |h| == 8
    ensures Scan(file, |file|, h, offset, index) == Scanned(index, offset)
  {}

  // ----- documents -----

  lemma {:induction false} IdsAppend(a: seq<Entry>, b: seq<Entry>)
    ensures Ids(a + b) == Ids(a) + Ids(b)
  {
    if a == [] {
      assert a + b == b;
    } else {
      IdsAppend(a[1..], b);
      assert (a + b)[1..] == a[1..] + b;
    }
  }

  lemma {:induction false} IdsOfNarrow(pairs: seq<Entry>)
    ensures Ids(NarrowPairs(pairs)) == Ids(pairs)
  {
    if pairs != [] {
      IdsOfNarrow(pairs[1..]);
      NarrowKeepsId(pairs[0]);
      assert NarrowPairs(pairs)[1..] == NarrowPairs(pairs[1..]);
    }
  }

  lemma NarrowKeepsId(e: Entry)
    ensures IsId(NarrowEntry(e)) == IsId(e)
    ensures IsId(e) ==> NarrowEntry(e) == e
  {}

  /** What the rescan makes of a document that was put. */
  lemma StoredDocument(index: Index, id: Text, document: seq<Entry>, offset: nat)
    requires Storable(id, document)
    ensures var r := AddDocument(index, Encode(Document(id, document)).value, offset);
            if Plain(Document(id, document)) && Nesting(Document(id, document)) <= MAX_DEPTH
            then && r.Keys == index.Keys + Ids(document) + {id}
                 && forall x :: x in r ==> r[x] == if x in Ids(document) || x == id then offset else index[x]
            else r == index
  {
    hide Encode, Decode, Plain, Nesting, AddIds;
    var v := Document(id, document);
    var enc := Encode(v).value;
    assert enc + [] == enc;
    DecodeOfEncode(v, []);
    var own := [Entry(Str(IdText()), Str(id))];
    IdsAppend(document, own);
    assert own[1..] == [];
    IdsOfNarrow(v.pairs);
    AddedIds(index, NarrowPairs(v.pairs), offset);
  }

  /** A put keeps the index in step with the file exactly when the document has
      no extension, nests within the decoder's limit and names no other identifier. */
  lemma PutKeepsConsistent(db: Db, id: Text, document: seq<Entry>)
    requires Consistent(db) && Storable(id, document)
    ensures Consistent(PutDb(db, id, document)) <==> Indexable(id, document)
  {
    hide Encode, Plain, Nesting, Scan, Frames, AddDocument, Document, Ids;
    var doc := Encode(Document(id, document)).value;
    ScanOfFrames(db.file, 0, Zeros(8), map[]);
    ScanOfAppend(db.file, doc, 0, Zeros(8), map[]);
    StoredDocument(db.index, id, document, db.next);
    var live, rescan := db.index[id := db.next], AddDocument(db.index, doc, db.next);
    if Indexable(id, document) {
      assert live == rescan;
    } else if Plain(Document(id, document)) && Nesting(Document(id, document)) <= MAX_DEPTH {
      var x :| x in Ids(document) && x != id;
      assert rescan[x] == db.next;
      assert x in live ==> live[x] < db.next;
    } else {
      assert id in live && live[id] == db.next;
      assert id in rescan ==> rescan[id] < db.next;
    }
  }

  // ----- runs -----

  datatype Op = Put(id: Text, document: seq<Entry>) | Reopen

  predicate Admissible(op: Op) {
    op.Put? && Encode(Document(op.id, op.document)).Ok? ==>
      Storable(op.id, op.document) && Indexable(op.id, op.document)
  }

  function Step(db: Db, op: Op): (r: Db) {
    match op
    case Put(id, document) => if Encode(Document(id, document)).Ok? then PutDb(db, id, document) else db
    case Reopen => Open(db.file)
  }

  function Run(db: Db, ops: seq<Op>): (r: Db)
    decreases |ops|
  {
    if ops == [] then db else Run(Step(db, ops[0]), ops[1..])
  }

  /** A document with an "_id" of its own, put under another identifier into an empty
      store: a rescan finds both identifiers, the live index one. */
  lemma OwnIdExample()
    ensures var d := [Entry(Str(IdText()), Str(IdText()))];
            Storable([], d) && !Consistent(PutDb(Open([]), [], d))
  {
    hide Consistent, Open, Frames;
    var d := [Entry(Str(IdText()), Str(IdText()))];
    ShortDocument(d);
    EmptyIsConsistent();
    assert IsId(d[0]) && IdText() in Ids(d) && IdText() !in {[]};
    PutKeepsConsistent(Open([]), [], d);
  }

  lemma ShortDocument(d: seq<Entry>)
    requires d == [Entry(Str(IdText()), Str(IdText()))]
    ensures Storable([], d)
  {
    var ps := Document([], d).pairs;
    assert |ps| == 2 && ps[1..] == [Entry(Str(IdText()), Str([]))] && ps[1..][1..] == [];
    assert EncodePairs(ps[1..][1..]) == Ok([]);
    assert |EncodeEntry(ps[1]).value| <= 100 && |EncodeEntry(ps[0]).value| <= 100;
    assert EncodePairs(ps[1..]).Ok? && |EncodePairs(ps[1..]).value| <= 100;
  }

  /** After any sequence of puts and reopens of any store in step with its file,
      the live index and next offset are those of a rescan. */
  lemma {:induction false} RunsStayConsistent(db: Db, ops: seq<Op>)
    requires Consistent(db) && forall op :: op in ops ==> Admissible(op)
    ensures Consistent(Run(db, ops))
    decreases |ops|
  {
    hide Consistent, Encode, Indexable, PutDb;
    if ops != [] {
      assert ops[0] in ops;
      if ops[0].Put? && Encode(Document(ops[0].id, ops[0].document)).Ok? {
        PutKeepsConsistent(db, ops[0].id, ops[0].document);
      } else if ops[0].Reopen? {
        ReopenIsConsistent(db);
      }
      RunsStayConsistent(Step(db, ops[0]), ops[1..]);
    }
  }

  lemma ReopenIsConsistent(db: Db)
    requires Consistent(db)
    ensures Consistent(Open(db.file)) && Open(db.file) == db
  {
    hide Scan, Frames;
  }

  lemma EmptyIsConsistent()
    ensures Consistent(Open([]))
  {}

  // ----- the code -----

  class Store {
    /** The file behind the descriptor and the descriptor's position in it. */
    var file: seq<byte>
    var cursor: nat
    var index: Index
    var nextOffset: nat

    ghost function State(): (db: Db)
      reads this
    {
      Db(file, index, nextOffset)
    }

    constructor (file: seq<byte>)
      ensures State() == Open(file)
      ensures Frames(file, 0) ==> cursor == |file|
    {
      this.file := file;
      cursor, index, nextOffset := 0, map[], 0;
      new;
      RebuildIndex();
    }

    method Read(n: nat) returns (b: seq<byte>)
      requires cursor <= |file|
      modifies this`cursor
      ensures cursor == old(cursor) + |b| <= |file| && |b| == Min(n, |file| - old(cursor))
      ensures b == file[old(cursor)..cursor]
    {
      var k := Min(n, |file| - cursor);
      b := file[cursor..cursor + k];
      cursor := cursor + k;
    }

    method Write(b: seq<byte>)
      requires cursor == |file|
      modifies this`file, this`cursor
      ensures file == old(file) + b && cursor == |file|
    {
      file := file + b;
      cursor := cursor + |b|;
    }

    method RebuildIndex()
      requires cursor == 0 && index == map[]
      modifies this`cursor, this`index, this`nextOffset
      ensures State() == Open(file)
      ensures Frames(file, 0) ==> cursor == |file|
    {
      hide FromLe, AddDocument, Frames, Scan, Zeros;
      var offset: nat := 0;
      var headerBuf := Zeros(8);
      while true
        invariant cursor <= |file| && |headerBuf| == 8
        invariant Scan(file, 0, Zeros(8), 0, map[]) == Scan(file, cursor, headerBuf, offset, index)
        invariant Frames(file, 0) ==> Frames(file, cursor)
        decreases |file| - cursor
      {
        ghost var c, h := cursor, headerBuf;
        var head := Read(8);
        if |head| == 0 {
          ScanEnd(file, h, offset, index);
          break;
        }
        headerBuf := head + headerBuf[|head|..];
        var docLen := FromLe(headerBuf);
        var body := Read(docLen);
        ScanTurns(file, c, h, offset, index, head, body);
        if |body| == 0 { break; }
        var docBuf := body + Zeros(docLen - |body|);
        IndexDocument(docBuf, offset);
        offset := offset + 8 + docLen;
      }
      nextOffset := offset;
    }

    /** Decodes one document and records the offset for each "_id" it carries. */
    method IndexDocument(doc: seq<byte>, offset: nat)
      modifies this`index
      ensures index == AddDocument(old(index), doc, offset)
    {
      hide Decode;
      var r := DecodeBytes(doc);
      if r.Ok? && r.value.Map? {
        var pairs := r.value.pairs;
        for i := 0 to |pairs|
          invariant AddIds(old(index), pairs, offset) == AddIds(index, pairs[i..], offset)
        {
          assert pairs[i..][1..] == pairs[i + 1..];
          if pairs[i].key == Str(IdText()) && pairs[i].val.Str? {
            index := index[pairs[i].val.text := offset];
          }
        }
      }
    }

    method Put(id: Text, document: seq<Entry>) returns (ok: bool)
      requires cursor == |file|
      modifies this
      ensures cursor == |file|
      ensures ok <==> Encode(Document(id, document)).Ok?
      ensures State() == if ok then PutDb(old(State()), id, document) else old(State())
      ensures Consistent(old(State())) && Storable(id, document) ==>
              (Consistent(State()) <==> Indexable(id, document))
    {
      hide Encode, Consistent, Indexable;
      var val := Document(id, document);
      var encoded := EncodeBytes(val);
      if encoded.Err? { return false; }
      ghost var before := State();
      Write(Le(|encoded.value|, 8));
      Write(encoded.value);
      index := index[id := nextOffset];
      nextOffset := nextOffset + 8 + |encoded.value|;
      assert file == before.file + Frame(encoded.value);
      if Consistent(before) && Storable(id, document) { PutKeepsConsistent(before, id, document); }
      ok := true;
    }
  }
}
