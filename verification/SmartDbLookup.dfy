/** What the index of the document store is for: it finds the document last put under every
    identifier, and what it makes of a file that was cut off. */
module SmartDbLookup {
  import opened Basics
  import opened LittleEndian
  import opened Bits
  import opened Utf8
  import opened SmartPack
  import opened SmartPackLaws
  import opened SmartDb

  /** The document last put under an identifier, if any; a put that cannot be encoded does nothing. */
  function LastPut(ops: seq<Op>, id: Text): (r: Option<seq<Entry>>) {
    if ops == [] then None
    else
      var op := ops[|ops| - 1];
      if op.Put? && op.id == id && Encode(Document(op.id, op.document)).Ok? then Some(op.document)
      else LastPut(ops[..|ops| - 1], id)
  }

  /** At a place in the file stands a document under an identifier: its length in eight bytes, least
      significant first, and the encoding of its pairs with "_id" as the last. */
  ghost predicate Holds(file: seq<byte>, o: nat, id: Text, document: seq<Entry>) {
    var e := Encode(Map(document + [Entry(Str(IdText()), Str(id))]));
    && e.Ok? && o + 8 + |e.value| <= |file|
    && FromLe(file[o..o + 8]) == |e.value| && file[o + 8..o + 8 + |e.value|] == e.value
  }

  /** Every identifier that was put is in the index, with a place where its last document stands,
      and no other identifier is. */
  ghost predicate Finds(db: Db, ops: seq<Op>) {
    && db.next == |db.file|
    && forall id :: match LastPut(ops, id)
                    case None => id !in db.index
                    case Some(d) => id in db.index && Holds(db.file, db.index[id], id, d)
  }

  lemma IdIsUnderscoreId()
    ensures IdText() == [0x5F, 0x69, 0x64]
  {}

  lemma HoldsLonger(file: seq<byte>, more: seq<byte>, o: nat, id: Text, d: seq<Entry>)
    requires Holds(file, o, id, d)
    ensures Holds(file + more, o, id, d)
  {
    hide Encode, FromLe;
    var n := |Encode(Map(d + [Entry(Str(IdText()), Str(id))])).value|;
    assert (file + more)[o..o + 8] == file[o..o + 8];
    assert (file + more)[o + 8..o + 8 + n] == file[o + 8..o + 8 + n];
  }

  lemma PutFinds(db: Db, ops: seq<Op>, id: Text, d: seq<Entry>)
    requires Finds(db, ops) && Storable(id, d)
    ensures Finds(PutDb(db, id, d), ops + [Put(id, d)])
  {
    hide Encode, Holds, Frame;
    var all := ops + [Put(id, d)];
    assert all[..|ops|] == ops;
    var e := Encode(Document(id, d)).value;
    var r := PutDb(db, id, d);
    forall x ensures match LastPut(all, x)
                     case None => x !in r.index
                     case Some(y) => x in r.index && Holds(r.file, r.index[x], x, y)
    {
      if x == id {
        PutHolds(db.file, id, d);
      } else if LastPut(ops, x).Some? {
        HoldsLonger(db.file, Frame(e), db.index[x], x, LastPut(ops, x).value);
      }
    }
    FrameLength(e);
  }

  lemma FrameLength(e: seq<byte>)
    ensures |Frame(e)| == 8 + |e|
  {}

  lemma PutHolds(file: seq<byte>, id: Text, d: seq<Entry>)
    requires Storable(id, d)
    ensures Holds(file + Frame(Encode(Document(id, d)).value), |file|, id, d)
  {
    hide Encode, FromLe, Frame;
    var e := Encode(Document(id, d)).value;
    FrameHeader(e);
    FrameLength(e);
    var f := file + Frame(e);
    assert f[|file|..|file| + 8] == Frame(e)[..8];
    assert f[|file| + 8..|file| + 8 + |e|] == Frame(e)[8..];
  }

  lemma {:induction false} RunSnoc(db: Db, ops: seq<Op>, op: Op)
    ensures Run(db, ops + [op]) == Step(Run(db, ops), op)
    decreases |ops|
  {
    hide Step;
    if ops == [] {
      assert (ops + [op])[1..] == [];
    } else {
      assert (ops + [op])[1..] == ops[1..] + [op];
      RunSnoc(Step(db, ops[0]), ops[1..], op);
    }
  }

  /** Over every sequence of puts and reopens of a new store, as long as the documents can be read
      back: the index finds the document last put under each identifier. */
  lemma {:induction false} IndexFindsDocuments(ops: seq<Op>)
    requires forall op :: op in ops ==> Admissible(op)
    ensures Finds(Run(Open([]), ops), ops)
    decreases |ops|
  {
    hide Finds, Step, Open, Run, Admissible, Consistent;
    if ops == [] {
      NothingFound();
    } else {
      var n := |ops| - 1;
      var before, op := ops[..n], ops[n];
      assert ops == before + [op] && op in ops;
      var db := Run(Open([]), before);
      IndexFindsDocuments(before);
      RunSnoc(Open([]), before, op);
      EmptyIsConsistent();
      RunsStayConsistent(Open([]), before);
      StepFinds(db, before, op);
    }
  }

  lemma NothingFound()
    ensures Finds(Run(Open([]), []), [])
  {}

  lemma StepFinds(db: Db, ops: seq<Op>, op: Op)
    requires Finds(db, ops) && Consistent(db) && Admissible(op)
    ensures Finds(Step(db, op), ops + [op])
  {
    hide Encode, Holds, PutDb, Indexable, Document, Open;
    if op.Put? && Encode(Document(op.id, op.document)).Ok? {
      PutFinds(db, ops, op.id, op.document);
    } else {
      if op.Reopen? { ReopenIsConsistent(db); }
      assert (ops + [op])[..|ops|] == ops;
      forall x ensures LastPut(ops + [op], x) == LastPut(ops, x) {}
    }
  }

  /** The place the index names is where reading gives the document back, with its integers in their
      smallest width. */
  lemma FoundDocumentReads(file: seq<byte>, o: nat, id: Text, d: seq<Entry>)
    requires Holds(file, o, id, d) && Indexable(id, d)
    ensures var n := FromLe(file[o..o + 8]);
            && o + 8 + n <= |file|
            && Decode(file[o + 8..o + 8 + n], 0) == Got(Narrow(Map(d + [Entry(Str(IdText()), Str(id))])), n)
            && IdText() == [0x5F, 0x69, 0x64]
  {
    hide Encode, Decode, Narrow, FromLe, Plain, Nesting;
    var v := Map(d + [Entry(Str(IdText()), Str(id))]);
    IdIsUnderscoreId();
    DecodeOfEncode(v, []);
    assert Encode(v).value + [] == Encode(v).value;
  }

  // ----- files that were cut off -----

  /** A frame cut off in its length, or right behind it, is as if it were not there. */
  lemma TornLengthIsIgnored(file: seq<byte>, torn: seq<byte>)
    requires Frames(file, 0) && |torn| <= 8
    ensures Open(file + torn).index == Open(file).index && Open(file + torn).next == Open(file).next == |file|
  {
    hide Scan;
    TornFrom(file, torn, 0, Zeros(8), map[]);
    ScanOfFrames(file, 0, Zeros(8), map[]);
  }

  lemma {:induction false} TornFrom(file: seq<byte>, torn: seq<byte>, cursor: nat, h: seq<byte>, index: Index)
    requires cursor <= |file| && |h| == 8 && Frames(file, cursor) && |torn| <= 8
    ensures Scan(file + torn, cursor, h, cursor, index) == Scan(file, cursor, h, cursor, index)
    decreases |file| - cursor
  {
    hide AddDocument, FromLe, Scan;
    var all := file + torn;
    if cursor == |file| {
      TornHere(file, torn, h, index);
    } else {
      var header := file[cursor..cursor + 8];
      var len := FromLe(header);
      var d := file[cursor + 8..cursor + 8 + len];
      assert all[cursor..cursor + 8] == header;
      assert all[cursor + 8..cursor + 8 + len] == d;
      ScanFrame(file, cursor, h, cursor, index, len);
      ScanFrame(all, cursor, h, cursor, index, len);
      TornFrom(file, torn, cursor + 8 + len, header, AddDocument(index, d, cursor));
    }
  }

  lemma TornHere(file: seq<byte>, torn: seq<byte>, h: seq<byte>, index: Index)
    requires |h| == 8 && |torn| <= 8
    ensures Scan(file + torn, |file|, h, |file|, index) == Scan(file, |file|, h, |file|, index)
  {
    hide AddDocument, FromLe;
  }

  /** A frame cut off in its document counts with its full length: the next document would be recorded
      behind the end of the file, where it is not. */
  lemma TornDocumentCounts(file: seq<byte>, doc: seq<byte>, k: nat)
    requires Frames(file, 0) && 0 < k < |doc| < 0x1_0000_0000_0000_0000
    ensures Open(file + Frame(doc)[..8 + k]).next == |file| + 8 + |doc| > |file + Frame(doc)[..8 + k]|
  {
    hide Scan, Frame;
    FrameHeader(doc);
    FrameLength(doc);
    TornDocument(file, doc, k, 0, Zeros(8), map[]);
  }

  lemma {:induction false} TornDocument(file: seq<byte>, doc: seq<byte>, k: nat,
                                        cursor: nat, h: seq<byte>, index: Index)
    requires cursor <= |file| && |h| == 8 && Frames(file, cursor) && 0 < k < |doc| < 0x1_0000_0000_0000_0000
    ensures |Frame(doc)| == 8 + |doc|
    ensures Scan(file + Frame(doc)[..8 + k], cursor, h, cursor, index).next == |file| + 8 + |doc|
    decreases |file| - cursor
  {
    hide AddDocument, FromLe, Frame, Scan;
    FrameHeader(doc);
    FrameLength(doc);
    var all := file + Frame(doc)[..8 + k];
    if cursor < |file| {
      var header := file[cursor..cursor + 8];
      var len := FromLe(header);
      var d := file[cursor + 8..cursor + 8 + len];
      assert all[cursor..cursor + 8] == header;
      assert all[cursor + 8..cursor + 8 + len] == d;
      ScanFrame(all, cursor, h, cursor, index, len);
      TornDocument(file, doc, k, cursor + 8 + len, header, AddDocument(index, d, cursor));
    } else {
      LastTorn(all, cursor, h, index, |doc|, k, Frame(doc));
    }
  }

  lemma LastTorn(all: seq<byte>, cursor: nat, h: seq<byte>, index: Index, len: nat, k: nat, frame: seq<byte>)
    requires |h| == 8 && 0 < k < len && |all| == cursor + 8 + k && |frame| == 8 + len
    requires all[cursor..] == frame[..8 + k] && FromLe(frame[..8]) == len
    ensures Scan(all, cursor, h, cursor, index).next == cursor + 8 + len
  {
    hide AddDocument, FromLe;
    var header := all[cursor..cursor + 8];
    assert header == all[cursor..][..8] == frame[..8];
    assert header + h[8..] == header;
    AtTheEnd(all, header, cursor + 8 + len, AddDocument(index, all[cursor + 8..] + Zeros(len - k), cursor));
    assert all[cursor + 8..cursor + 8 + k] == all[cursor + 8..];
  }

  lemma AtTheEnd(all: seq<byte>, h: seq<byte>, offset: nat, index: Index)
    requires |h| == 8
    ensures Scan(all, |all|, h, offset, index) == Scanned(index, offset)
  {}
}
