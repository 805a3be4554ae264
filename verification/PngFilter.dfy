/** PNG row filters: the forward filters of section 6 of RFC 2083 and the decoder's
    loop that undoes them. */
module PngFilter {
  import opened LittleEndian
  import opened Bits

  datatype Fault = CorruptData
  datatype Result<+T> = Ok(value: T) | Err(fault: Fault)

  function Abs(x: int): (r: nat) { if x < 0 then -x else x }

  /** The one of left, above and upper left that is nearest to a + b - c, the earlier
      on a tie. */
  function Paeth(a: byte, b: byte, c: byte): (r: byte)
    ensures r == a || r == b || r == c
    ensures var p := a + b - c;
            && Abs(p - r) <= Abs(p - a) && Abs(p - r) <= Abs(p - b) && Abs(p - r) <= Abs(p - c)
            && (Abs(p - r) == Abs(p - a) ==> r == a) && (Abs(p - r) == Abs(p - b) ==> r == a || r == b)
  {
    var p := a + b - c;
    var pa, pb, pc := Abs(p - a), Abs(p - b), Abs(p - c);
    if pa <= pb && pa <= pc then a else if pb <= pc then b else c
  }

  function Plus(x: byte, p: byte): (r: byte) { (x as int + p as int) % 256 }

  function Minus(x: byte, p: byte): (r: byte) { (x as int - p as int) % 256 }

  /** Half the sum, rounded down; the sum itself may exceed a byte. */
  function Average(a: byte, b: byte): (r: byte)
    ensures 2 * r <= a as int + b as int < 2 * r + 2
  {
    (a as int + b as int) / 2
  }

  // ----- the filters -----

  function Left(row: seq<byte>, i: nat, bpp: nat): (a: byte)
    requires i <= |row| && bpp >= 1
  {
    if i >= bpp then row[i - bpp] else 0
  }

  function Above(prev: seq<byte>, i: nat): (b: byte) { if i < |prev| then prev[i] else 0 }

  function Corner(prev: seq<byte>, i: nat, bpp: nat): (c: byte) {
    if i >= bpp && i < |prev| then prev[i - bpp] else 0
  }

  /** What a filter expects a byte to be, from its three neighbours. */
  function Predicted(kind: byte, a: byte, b: byte, c: byte): (p: byte)
    requires kind <= 4
  {
    if kind == 0 then 0
    else if kind == 1 then a
    else if kind == 2 then b
    else if kind == 3 then Average(a, b)
    else Paeth(a, b, c)
  }

  function At(kind: byte, row: seq<byte>, prev: seq<byte>, bpp: nat, i: nat): (p: byte)
    requires kind <= 4 && i <= |row| && bpp >= 1
  {
    Predicted(kind, Left(row, i, bpp), Above(prev, i), Corner(prev, i, bpp))
  }

  /** The forward filter: each byte less its prediction. */
  function Filtered(kind: byte, row: seq<byte>, prev: seq<byte>, bpp: nat): (f: seq<byte>)
    requires kind <= 4 && bpp >= 1
    ensures |f| == |row|
    ensures forall i :: 0 <= i < |row| ==> f[i] == Minus(row[i], At(kind, row, prev, bpp, i))
  {
    seq(|row|, i requires 0 <= i < |row| => Minus(row[i], At(kind, row, prev, bpp, i)))
  }

  /** Each byte of out is the filtered byte plus its prediction from out itself. */
  ghost predicate Undoes(out: seq<byte>, kind: byte, f: seq<byte>, prev: seq<byte>, bpp: nat) {
    && kind <= 4 && bpp >= 1 && |out| == |f|
    && forall i :: 0 <= i < |out| ==> out[i] == Plus(f[i], At(kind, out, prev, bpp, i))
  }

  /** Undoing gives back the row that was filtered, and nothing else: filtering a row
      and undoing are inverse to each other. */
  lemma UndoesIffFiltered(out: seq<byte>, kind: byte, f: seq<byte>, prev: seq<byte>, bpp: nat)
    requires kind <= 4 && bpp >= 1
    ensures Undoes(out, kind, f, prev, bpp) <==> f == Filtered(kind, out, prev, bpp)
  {
    hide At;
    if Undoes(out, kind, f, prev, bpp) {
      forall i | 0 <= i < |out| ensures f[i] == Filtered(kind, out, prev, bpp)[i] {
        Wraps(out[i], f[i], At(kind, out, prev, bpp, i));
      }
    }
    if f == Filtered(kind, out, prev, bpp) {
      forall i | 0 <= i < |out| ensures out[i] == Plus(f[i], At(kind, out, prev, bpp, i)) {
        Wraps(out[i], f[i], At(kind, out, prev, bpp, i));
      }
    }
  }

  lemma Wraps(x: byte, f: byte, p: byte)
    ensures x == Plus(f, p) <==> f == Minus(x, p)
  {}

  /** There is one row that undoes a filtered row. */
  lemma {:induction false} UndoneIsUnique(x: seq<byte>, y: seq<byte>, kind: byte, f: seq<byte>,
                                          prev: seq<byte>, bpp: nat, n: nat)
    requires Undoes(x, kind, f, prev, bpp) && Undoes(y, kind, f, prev, bpp) && n <= |f|
    ensures x[..n] == y[..n]
    decreases n
  {
    hide Predicted;
    if n > 0 {
      var i := n - 1;
      UndoneIsUnique(x, y, kind, f, prev, bpp, i);
      assert i >= bpp ==> x[..i][i - bpp] == y[..i][i - bpp];
      assert At(kind, x, prev, bpp, i) == At(kind, y, prev, bpp, i);
      assert x[..n] == x[..i] + [x[i]] && y[..n] == y[..i] + [y[i]];
    }
  }

  /** What each filter type says of a byte, its filtered byte f and its neighbours a, b and c to the left,
      above and to the upper left: the difference to f is, up to multiples of 256, nothing, the
      left one, the one above, half the sum of these two, or the nearest to a + b - c. */
  ghost predicate FilteredAs(kind: byte, x: byte, f: byte, a: byte, b: byte, c: byte) {
    exists p: byte :: Expects(kind, p, a, b, c) && (x - f - p) % 256 == 0
  }

  predicate Expects(kind: byte, p: byte, a: byte, b: byte, c: byte) {
    match kind
    case 0 => p == 0
    case 1 => p == a
    case 2 => p == b
    case 3 => 2 * p <= a + b <= 2 * p + 1
    case 4 => Nearest(p, a, b, c)
    case _ => false
  }

  /** The first of a, b, c at the least distance from a + b - c. */
  predicate Nearest(p: byte, a: byte, b: byte, c: byte) {
    var e := a + b - c;
    || (p == a && Abs(e - a) <= Abs(e - b) && Abs(e - a) <= Abs(e - c))
    || (p == b && Abs(e - b) < Abs(e - a) && Abs(e - b) <= Abs(e - c))
    || (p == c && Abs(e - c) < Abs(e - a) && Abs(e - c) < Abs(e - b))
  }

  /** The rows are filtered as section 6 of RFC 2083 has it, byte by byte: the left neighbours are
      bpp bytes back and zero before the row, those above come from the row before. */
  lemma FiltersAreStandard(out: seq<byte>, kind: byte, f: seq<byte>, prev: seq<byte>, bpp: nat, i: nat)
    requires Undoes(out, kind, f, prev, bpp) && i < |out|
    ensures FilteredAs(kind, out[i], f[i], if i < bpp then 0 else out[i - bpp], if i < |prev| then prev[i] else 0,
                       if i < bpp || i >= |prev| then 0 else prev[i - bpp])
  {
    var a, b, c := Left(out, i, bpp), Above(prev, i), Corner(prev, i, bpp);
    var p := Predicted(kind, a, b, c);
    assert out[i] == Plus(f[i], p);
    Congruent(out[i], f[i], p);
    assert Expects(kind, p, a, b, c);
  }

  lemma Congruent(x: byte, f: byte, p: byte)
    requires x == Plus(f, p)
    ensures (x - f - p) % 256 == 0
  {}

  // ----- the decoder -----

  /** Undoes the filter of one row. */
  method ApplyPngFilter(kind: byte, row: seq<byte>, prev: seq<byte>, bpp: nat) returns (r: Result<seq<byte>>)
    requires bpp >= 1
    ensures r.Err? <==> kind > 4
    ensures r.Ok? ==> Undoes(r.value, kind, row, prev, bpp)
  {
    hide Undoes, Predicted, Plus, Average, Paeth;
    if kind > 4 { return Err(CorruptData); }
    var n := |row|;
    var out := new byte[n](_ => 0);
    NothingUndone(kind, prev, bpp);
    assert out[..0] == [] && row[..0] == [];
    for i := 0 to n
      invariant Undoes(out[..i], kind, row[..i], prev, bpp)
    {
      var a := if i >= bpp then out[i - bpp] else 0;
      var b := if i < |prev| then prev[i] else 0;
      var c := if i >= bpp && i < |prev| then prev[i - bpp] else 0;
      ghost var before := out[..i];
      Kinds(kind, row[i], a, b, c);
      if kind == 0 {
        out[i] := row[i];
      } else if kind == 1 {
        out[i] := Plus(row[i], a);
      } else if kind == 2 {
        out[i] := Plus(row[i], b);
      } else if kind == 3 {
        out[i] := Plus(row[i], Average(a, b));
      } else {
        out[i] := Plus(row[i], Paeth(a, b, c));
      }
      UndoesMore(before, out[i], kind, row[..i], row[i], prev, bpp);
      assert out[..i + 1] == before + [out[i]] && row[..i + 1] == row[..i] + [row[i]];
    }
    assert out[..n] == out[..] && row[..n] == row;
    return Ok(out[..]);
  }

  lemma NothingUndone(kind: byte, prev: seq<byte>, bpp: nat)
    requires kind <= 4 && bpp >= 1
    ensures Undoes([], kind, [], prev, bpp)
  {}

  lemma Kinds(kind: byte, x: byte, a: byte, b: byte, c: byte)
    requires kind <= 4
    ensures Plus(x, Predicted(kind, a, b, c)) ==
      if kind == 0 then x else if kind == 1 then Plus(x, a) else if kind == 2 then Plus(x, b)
      else if kind == 3 then Plus(x, Average(a, b)) else Plus(x, Paeth(a, b, c))
  {}

  lemma UndoesMore(out: seq<byte>, x: byte, kind: byte, f: seq<byte>, g: byte, prev: seq<byte>, bpp: nat)
    requires Undoes(out, kind, f, prev, bpp)
    requires x == Plus(g, At(kind, out, prev, bpp, |out|))
    ensures Undoes(out + [x], kind, f + [g], prev, bpp)
  {
    hide At, Plus;
    Grown(kind, out, x, prev, bpp);
  }

  /** A prediction looks only at what stands before it. */
  lemma Grown(kind: byte, row: seq<byte>, x: byte, prev: seq<byte>, bpp: nat)
    requires kind <= 4 && bpp >= 1
    ensures forall k :: 0 <= k <= |row| ==> At(kind, row + [x], prev, bpp, k) == At(kind, row, prev, bpp, k)
  {
    hide Predicted;
  }

  // ----- whole images -----

  /** The filtered rows of an image, each behind its filter type. */
  function Packed(rows: seq<seq<byte>>, kinds: seq<byte>, prev: seq<byte>, bpp: nat): (raw: seq<byte>)
    requires |rows| == |kinds| && bpp >= 1 && forall i :: 0 <= i < |kinds| ==> kinds[i] <= 4
  {
    if rows == [] then []
    else [kinds[0]] + Filtered(kinds[0], rows[0], prev, bpp) + Packed(rows[1..], kinds[1..], rows[0], bpp)
  }

  /** Rows that undo the filtered rows of raw, one after the other. */
  ghost predicate Unpacks(rows: seq<seq<byte>>, raw: seq<byte>, prev: seq<byte>, stride: nat, bpp: nat)
    decreases |rows|
  {
    rows == [] ||
    (&& 1 <= stride <= |raw|
     && Undoes(rows[0], raw[0], raw[1..stride], prev, bpp)
     && Unpacks(rows[1..], raw[stride..], rows[0], stride, bpp))
  }

  /** Whatever rows the decoder could return for an encoded image, they are its rows. */
  lemma {:induction false} UnpacksPacked(rows: seq<seq<byte>>, kinds: seq<byte>, got: seq<seq<byte>>,
                                         prev: seq<byte>, n: nat, bpp: nat)
    requires |rows| == |kinds| == |got| && bpp >= 1 && (forall i :: 0 <= i < |kinds| ==> kinds[i] <= 4)
    requires forall r :: r in rows ==> |r| == n
    requires Unpacks(got, Packed(rows, kinds, prev, bpp), prev, n + 1, bpp)
    ensures got == rows
    decreases |rows|
  {
    hide Undoes, Filtered;
    if rows != [] {
      var raw := Packed(rows, kinds, prev, bpp);
      var f := Filtered(kinds[0], rows[0], prev, bpp);
      var rest := Packed(rows[1..], kinds[1..], rows[0], bpp);
      assert |rows[0]| == n;
      PackedFront(kinds[0], f, rest, raw, n);
      FilteredUndone(rows[0], got[0], kinds[0], prev, bpp);
      UnpacksPacked(rows[1..], kinds[1..], got[1..], rows[0], n, bpp);
    }
  }

  lemma PackedFront(k: byte, f: seq<byte>, rest: seq<byte>, raw: seq<byte>, n: nat)
    requires raw == [k] + f + rest && |f| == n
    ensures raw[0] == k && raw[1..n + 1] == f && raw[n + 1..] == rest
  {}

  lemma FilteredUndone(row: seq<byte>, got: seq<byte>, kind: byte, prev: seq<byte>, bpp: nat)
    requires kind <= 4 && bpp >= 1 && Undoes(got, kind, Filtered(kind, row, prev, bpp), prev, bpp)
    ensures got == row
  {
    var f := Filtered(kind, row, prev, bpp);
    UndoesIffFiltered(row, kind, f, prev, bpp);
    UndoneIsUnique(got, row, kind, f, prev, bpp, |f|);
    assert got[..|f|] == got && row[..|f|] == row;
  }

  ghost predicate KnownKinds(raw: seq<byte>, stride: nat, height: nat)
    decreases height
  {
    height == 0 || (1 <= stride <= |raw| && raw[0] <= 4 && KnownKinds(raw[stride..], stride, height - 1))
  }

  /** The decoder's row loop: fails on data that is too short or an unknown filter type,
      else undoes every row with the one before it. */
  method UnfilterRows(raw: seq<byte>, stride: nat, height: nat, bpp: nat) returns (r: Result<seq<seq<byte>>>)
    requires bpp >= 1 && stride >= 1
    ensures r.Ok? <==> stride * height <= |raw| && KnownKinds(raw, stride, height)
    ensures r.Ok? ==> |r.value| == height && Unpacks(r.value, raw, Zeros(stride - 1), stride, bpp)
  {
    hide Undoes, KnownKinds, Done, Unpacks;
    var expected := stride * height;
    if |raw| < expected { return Err(CorruptData); }
    var lines: seq<seq<byte>> := [];
    Begin(raw, stride, bpp);
    for y := 0 to height
      invariant |lines| == y && 0 <= y * stride <= |raw|
      invariant KnownKinds(raw, stride, height) <==> KnownKinds(raw[y * stride..], stride, height - y)
      invariant Done(lines, raw, stride, bpp)
    {
      Rows(stride, height, y);
      var rowStart := y * stride;
      var kind := raw[rowStart];
      var row := raw[rowStart + 1..rowStart + stride];
      var prev := if lines == [] then Zeros(stride - 1) else lines[|lines| - 1];
      var decoded := ApplyPngFilter(kind, row, prev, bpp);
      Front(raw, rowStart, stride, height - y);
      if decoded.Err? { return Err(CorruptData); }
      DoneMore(lines, decoded.value, raw, stride, bpp);
      lines := lines + [decoded.value];
    }
    NoRows(raw[height * stride..], stride);
    DoneAll(lines, raw, stride, bpp);
    return Ok(lines);
  }

  lemma NoRows(raw: seq<byte>, stride: nat)
    ensures KnownKinds(raw, stride, 0)
  {}

  lemma Rows(stride: nat, height: nat, y: nat)
    requires y < height
    ensures y * stride + stride == (y + 1) * stride <= stride * height
  {
    Larger(y + 1, height, stride);
  }

  lemma Larger(a: nat, b: nat, c: nat)
    requires a <= b
    ensures a * c <= c * b
  {}

  lemma Begin(raw: seq<byte>, stride: nat, bpp: nat)
    requires stride >= 1
    ensures 0 * stride == 0 && raw[0..] == raw && Done([], raw, stride, bpp)
  {}

  lemma Front(raw: seq<byte>, start: nat, stride: nat, n: nat)
    requires stride >= 1 && start + stride <= |raw| && n >= 1
    ensures KnownKinds(raw[start..], stride, n) <==> raw[start] <= 4 && KnownKinds(raw[start + stride..], stride, n - 1)
  {
    assert raw[start..][stride..] == raw[start + stride..];
  }

  /** The rows read so far, seen from the last one. */
  ghost predicate Done(lines: seq<seq<byte>>, raw: seq<byte>, stride: nat, bpp: nat)
    requires stride >= 1
    decreases |lines|
  {
    var n := |lines| - 1;
    lines == [] ||
    (&& n * stride + stride <= |raw| && n * stride >= 0
     && Undoes(lines[n], raw[n * stride], raw[n * stride + 1..n * stride + stride],
               if n == 0 then Zeros(stride - 1) else lines[n - 1], bpp)
     && Done(lines[..n], raw, stride, bpp))
  }

  lemma DoneMore(lines: seq<seq<byte>>, line: seq<byte>, raw: seq<byte>, stride: nat, bpp: nat)
    requires stride >= 1 && Done(lines, raw, stride, bpp)
    requires 0 <= |lines| * stride && |lines| * stride + stride <= |raw|
    requires Undoes(line, raw[|lines| * stride], raw[|lines| * stride + 1..|lines| * stride + stride],
                    if lines == [] then Zeros(stride - 1) else lines[|lines| - 1], bpp)
    ensures Done(lines + [line], raw, stride, bpp)
  {
    hide Undoes;
    assert (lines + [line])[..|lines|] == lines;
  }

  lemma {:induction false} DoneAt(lines: seq<seq<byte>>, raw: seq<byte>, stride: nat, bpp: nat, k: nat)
    requires stride >= 1 && Done(lines, raw, stride, bpp) && k < |lines|
    ensures k * stride + stride <= |raw| && k * stride >= 0
    ensures Undoes(lines[k], raw[k * stride], raw[k * stride + 1..k * stride + stride],
                   if k == 0 then Zeros(stride - 1) else lines[k - 1], bpp)
    decreases |lines|
  {
    hide Undoes;
    var n := |lines| - 1;
    if k < n {
      DoneAt(lines[..n], raw, stride, bpp, k);
    }
  }

  lemma DoneAll(lines: seq<seq<byte>>, raw: seq<byte>, stride: nat, bpp: nat)
    requires stride >= 1 && Done(lines, raw, stride, bpp)
    ensures Unpacks(lines, raw, Zeros(stride - 1), stride, bpp)
  {
    hide Undoes;
    DoneFrom(lines, raw, stride, bpp, 0);
    assert 0 * stride == 0 && lines[0..] == lines && raw[0..] == raw;
  }

  lemma {:induction false} DoneFrom(lines: seq<seq<byte>>, raw: seq<byte>, stride: nat, bpp: nat, k: nat)
    requires stride >= 1 && Done(lines, raw, stride, bpp) && k <= |lines| && 0 <= k * stride <= |raw|
    ensures Unpacks(lines[k..], raw[k * stride..], if k == 0 then Zeros(stride - 1) else lines[k - 1], stride, bpp)
    decreases |lines| - k
  {
    hide Undoes;
    if k < |lines| {
      DoneAt(lines, raw, stride, bpp, k);
      var s := k * stride;
      assert s + stride == (k + 1) * stride;
      DoneFrom(lines, raw, stride, bpp, k + 1);
      assert lines[k..][1..] == lines[k + 1..] && lines[k..][0] == lines[k];
      assert raw[s..][1..stride] == raw[s + 1..s + stride] && raw[s..][stride..] == raw[s + stride..];
    }
  }

  /** An encoded image has the length and the filter types the decoder asks for. */
  lemma {:induction false} PackedIsAccepted(rows: seq<seq<byte>>, kinds: seq<byte>, prev: seq<byte>, n: nat, bpp: nat)
    requires |rows| == |kinds| && bpp >= 1 && (forall i :: 0 <= i < |kinds| ==> kinds[i] <= 4)
    requires forall r :: r in rows ==> |r| == n
    ensures |Packed(rows, kinds, prev, bpp)| == (n + 1) * |rows|
    ensures KnownKinds(Packed(rows, kinds, prev, bpp), n + 1, |rows|)
    decreases |rows|
  {
    hide Filtered;
    if rows != [] {
      var raw := Packed(rows, kinds, prev, bpp);
      var f := Filtered(kinds[0], rows[0], prev, bpp);
      var rest := Packed(rows[1..], kinds[1..], rows[0], bpp);
      assert rows[0] in rows;
      PackedFront(kinds[0], f, rest, raw, n);
      PackedIsAccepted(rows[1..], kinds[1..], rows[0], n, bpp);
      OneMore(n + 1, |rows|);
    }
  }

  lemma OneMore(a: nat, b: nat)
    requires b >= 1
    ensures a + a * (b - 1) == a * b
  {}
}
