/** The image viewer's 24-bit BMP writer, its BMP reader and its quarter turn. Pixels
    live in one flat buffer, four bytes each, row after row from the top. */
module Bmp {
  import opened LittleEndian
  import opened Bits

  datatype Fault = InvalidHeader | UnsupportedFormat
  datatype Result<+T> = Ok(value: T) | Err(fault: Fault)

  datatype Image = Image(width: nat, height: nat, pixels: seq<byte>)
  datatype Rgba = Rgba(r: byte, g: byte, b: byte, a: byte)

  // ----- where things are -----

  /** The place of pixel (x, y) in the buffer. */
  function Place(w: nat, x: nat, y: nat): (o: nat) { (y * w + x) * 4 }

  /** The length of a BMP row: padded to a multiple of four. */
  function Stride(w: nat, bytes: nat): (n: nat) { Padded(w * bytes) }

  function Padded(n: nat): (r: nat)
    ensures n <= r < n + 4 && r % 4 == 0
  {
    (n + 3) / 4 * 4
  }

  /** The place of pixel (x, row) in a BMP file, rows counted from the start of the data. */
  function FilePlace(start: nat, stride: nat, bytes: nat, x: nat, row: nat): (o: nat)
  {
    start + row * stride + x * bytes
  }

  predicate Sized(img: Image) { |img.pixels| == img.width * img.height * 4 }

  lemma Rows(a: nat, b: nat, c: nat)
    requires a < b
    ensures a * c + c <= b * c
  {
    assert a * c + c == (a + 1) * c;
    Grow(a + 1, b, c);
  }

  lemma Grow(a: nat, b: nat, c: nat)
    requires a <= b
    ensures a * c <= b * c
  {}

  lemma PlaceInside(w: nat, h: nat, x: nat, y: nat)
    requires x < w && y < h
    ensures Place(w, x, y) + 4 <= w * h * 4
  {
    Rows(y, h, w);
    assert y * w + x + 1 <= h * w == w * h;
  }

  lemma PlaceApart(w: nat, x: nat, y: nat, u: nat, v: nat)
    requires x < w && u < w && (v < y || (v == y && u < x))
    ensures Place(w, u, v) + 4 <= Place(w, x, y)
  {
    if v < y {
      Rows(v, y, w);
      assert v * w + u + 1 <= y * w + x;
    }
  }

  lemma FileInside(stride: nat, bytes: nat, w: nat, h: nat, x: nat, row: nat)
    requires x < w && row < h && w * bytes <= stride
    ensures FilePlace(54, stride, bytes, x, row) + bytes <= 54 + row * stride + stride <= 54 + stride * h
  {
    Rows(row, h, stride);
    Rows(x, w, bytes);
    assert h * stride == stride * h;
  }

  lemma FileApart(stride: nat, bytes: nat, w: nat, x: nat, row: nat, u: nat, v: nat)
    requires x < w && u < w && w * bytes <= stride && (v < row || (v == row && u < x))
    ensures FilePlace(54, stride, bytes, u, v) + bytes <= FilePlace(54, stride, bytes, x, row)
  {
    Rows(u, w, bytes);
    if v < row {
      Rows(v, row, stride);
    } else {
      Rows(u, x, bytes);
    }
  }

  // ----- pixels -----

  function PixelAt(p: seq<byte>, o: nat): (c: Rgba)
    requires o + 4 <= |p|
  {
    Rgba(p[o], p[o + 1], p[o + 2], p[o + 3])
  }

  function Pixel(img: Image, x: nat, y: nat): (c: Rgba)
    requires Sized(img) && x < img.width && y < img.height
  {
    PlaceInside(img.width, img.height, x, y);
    PixelAt(img.pixels, Place(img.width, x, y))
  }

  /** Whether (u, v) comes before (x, y) in reading order. */
  predicate Before(u: nat, v: nat, x: nat, y: nat) { v < y || (v == y && u < x) }

  // ----- numbers -----

  function Le16(n: nat): (s: seq<byte>)
    ensures |s| == 2
  {
    Le(n, 2)
  }

  /** The low 32 bits. */
  function Le32(n: nat): (s: seq<byte>)
    ensures |s| == 4
  {
    Le(n, 4)
  }

  function Read16(d: seq<byte>, o: nat): (n: nat)
    requires o + 2 <= |d|
  {
    FromLe(d[o..o + 2])
  }

  function Read32(d: seq<byte>, o: nat): (n: nat)
    requires o + 4 <= |d|
  {
    FromLe(d[o..o + 4])
  }

  function Signed(n: nat): (i: int) { if n < 0x8000_0000 then n else n - 0x1_0000_0000 }

  predicate Field(d: seq<byte>, o: nat, f: seq<byte>) { o + |f| <= |d| && d[o..o + |f|] == f }

  lemma ReadBack(d: seq<byte>, o: nat, n: nat)
    requires n < 0x1_0000_0000 && Field(d, o, Le32(n))
    ensures Read32(d, o) == n
  {
    Widths();
    FromLeOfLe(n, 4);
  }

  lemma ReadBack16(d: seq<byte>, o: nat, n: nat)
    requires n < 0x1_0000 && Field(d, o, Le16(n))
    ensures Read16(d, o) == n
  {
    Widths();
    FromLeOfLe(n, 2);
  }

  // ----- the file format -----

  function Total(w: nat, h: nat): (n: nat) { 54 + Stride(w, 3) * h }

  /** The file and image headers. */
  function Header(w: nat, h: nat): (s: seq<byte>)
    ensures |s| == 54
  {
    FileHeader(Total(w, h)) + (ImageHeader(w, h) + (Zeros(4) + Le32(Total(w, h) - 54) + Zeros(16)))
  }

  function FileHeader(total: nat): (s: seq<byte>)
    ensures |s| == 14
  {
    [66, 77] + Le32(total) + Zeros(4) + Le32(54)
  }

  function ImageHeader(w: nat, h: nat): (s: seq<byte>)
    ensures |s| == 16
  {
    Le32(40) + Le32(w) + Le32(h) + Le16(1) + Le16(24)
  }

  predicate Headed(d: seq<byte>, w: nat, h: nat) { |d| >= 54 && d[..54] == Header(w, h) }

  function Three(d: seq<byte>, o: nat): (s: seq<byte>) { if o + 3 <= |d| then d[o..o + 3] else [] }

  /** The pixels before (x, row), rows counted from the bottom of the image. */
  ghost predicate Drawn(d: seq<byte>, img: Image, x: nat, row: nat)
    requires Sized(img)
  {
    forall u: nat, v: nat :: u < img.width && v < img.height && Before(u, v, x, row) ==>
      Three(d, FilePlace(54, Stride(img.width, 3), 3, u, v)) == Bgr(Pixel(img, u, img.height - 1 - v))
  }

  function Bgr(c: Rgba): (s: seq<byte>) { [c.b, c.g, c.r] }

  function PadPlace(w: nat, row: nat, k: nat): (o: nat) { 54 + row * Stride(w, 3) + w * 3 + k }

  function ByteAt(d: seq<byte>, o: nat): (b: byte) { if o < |d| then d[o] else 0 }

  ghost predicate PadsAreZero(d: seq<byte>, w: nat, h: nat) {
    forall v: nat, k: nat :: v < h && k < Stride(w, 3) - w * 3 ==> ByteAt(d, PadPlace(w, v, k)) == 0
  }

  /** The whole file of an image. */
  ghost predicate Encodes(d: seq<byte>, img: Image)
    requires Sized(img)
  {
    && |d| == Total(img.width, img.height) && Headed(d, img.width, img.height)
    && Drawn(d, img, 0, img.height) && PadsAreZero(d, img.width, img.height)
  }

  // ----- the writer -----

  /** Overwrites a field of the buffer. */
  method Put(d: array<byte>, o: nat, f: seq<byte>)
    requires o + |f| <= d.Length
    modifies d
    ensures d[..] == Spliced(old(d[..]), o, f)
  {
    for i := 0 to |f|
      invariant d[..] == Spliced(old(d[..]), o, f[..i])
    {
      SpliceMore(old(d[..]), o, f, i);
      d[o + i] := f[i];
    }
    assert f[..|f|] == f;
  }

  function Spliced(d: seq<byte>, o: nat, f: seq<byte>): (r: seq<byte>)
    requires o + |f| <= |d|
    ensures |r| == |d|
  {
    d[..o] + f + d[o + |f|..]
  }

  lemma SpliceMore(d: seq<byte>, o: nat, f: seq<byte>, i: nat)
    requires o + |f| <= |d| && i < |f|
    ensures Spliced(d, o, f[..i + 1]) == Spliced(d, o, f[..i])[o + i := f[i]]
  {}

  lemma SpliceThree(d: seq<byte>, o: nat, f: seq<byte>, p: nat)
    requires o + |f| <= |d| && (p + 3 <= o || o + |f| <= p)
    ensures Three(Spliced(d, o, f), p) == Three(d, p)
  {
    if p + 3 <= |d| {
      assert Spliced(d, o, f)[p..p + 3] == d[p..p + 3];
    }
  }

  lemma SpliceKeepsHeader(d: seq<byte>, o: nat, f: seq<byte>, w: nat, h: nat)
    requires o + |f| <= |d| && 54 <= o && Headed(d, w, h)
    ensures Headed(Spliced(d, o, f), w, h)
  {
    assert Spliced(d, o, f)[..54] == d[..54];
  }

  lemma DrawnMore(d: seq<byte>, img: Image, x: nat, row: nat)
    requires Sized(img) && x < img.width && row < img.height && |d| == Total(img.width, img.height)
    requires Drawn(d, img, x, row)
    ensures FilePlace(54, Stride(img.width, 3), 3, x, row) + 3 <= |d|
    ensures var o := FilePlace(54, Stride(img.width, 3), 3, x, row);
            Drawn(Spliced(d, o, Bgr(Pixel(img, x, img.height - 1 - row))), img, x + 1, row)
  {
    hide FilePlace, Pixel, Stride, Spliced, Three, Bgr;
    var w, h, stride := img.width, img.height, Stride(img.width, 3);
    Wide(w);
    FileInside(stride, 3, w, h, x, row);
    var o := FilePlace(54, stride, 3, x, row);
    Here(d, o, Pixel(img, x, h - 1 - row));
    var f := Bgr(Pixel(img, x, h - 1 - row));
    var e := Spliced(d, o, f);
    forall u: nat, v: nat | u < w && v < h && Before(u, v, x + 1, row)
      ensures Three(e, FilePlace(54, stride, 3, u, v)) == Bgr(Pixel(img, u, h - 1 - v))
    {
      if Before(u, v, x, row) {
        FileApart(stride, 3, w, x, row, u, v);
        SpliceThree(d, o, f, FilePlace(54, stride, 3, u, v));
      }
    }
  }

  lemma Wide(w: nat)
    ensures w * 3 <= Stride(w, 3)
  {}

  lemma Here(d: seq<byte>, o: nat, c: Rgba)
    requires o + 3 <= |d|
    ensures |Bgr(c)| == 3 && Three(Spliced(d, o, Bgr(c)), o) == Bgr(c)
  {}

  lemma PadsStayZero(d: seq<byte>, w: nat, h: nat, x: nat, row: nat, f: seq<byte>)
    requires x < w && row < h && |d| == Total(w, h) && |f| == 3 && PadsAreZero(d, w, h)
    ensures var o := FilePlace(54, Stride(w, 3), 3, x, row); o + 3 <= |d| && PadsAreZero(Spliced(d, o, f), w, h)
  {
    hide FilePlace, Stride, PadPlace, Spliced, ByteAt;
    var stride := Stride(w, 3);
    Wide(w);
    FileInside(stride, 3, w, h, x, row);
    var o := FilePlace(54, stride, 3, x, row);
    forall v: nat, k: nat | v < h && k < stride - w * 3 ensures ByteAt(Spliced(d, o, f), PadPlace(w, v, k)) == 0 {
      PadApart(w, x, row, v, k);
      ByteKept(d, o, f, PadPlace(w, v, k));
    }
  }

  lemma PadApart(w: nat, x: nat, row: nat, v: nat, k: nat)
    requires x < w && k < Stride(w, 3) - w * 3
    ensures var o := FilePlace(54, Stride(w, 3), 3, x, row); PadPlace(w, v, k) < o || o + 3 <= PadPlace(w, v, k)
  {
    hide Stride;
    var stride := Stride(w, 3);
    if v < row {
      Rows(v, row, stride);
    } else if row < v {
      Rows(row, v, stride);
    }
  }

  lemma ByteKept(d: seq<byte>, o: nat, f: seq<byte>, p: nat)
    requires o + |f| <= |d| && (p < o || o + |f| <= p)
    ensures ByteAt(Spliced(d, o, f), p) == ByteAt(d, p)
  {}

  /** Writes a field into a buffer that is zero from the last field on. */
  method PutNext(d: array<byte>, gap: nat, f: seq<byte>, o: nat, ghost done: seq<byte>)
    requires |done| + gap + |f| <= d.Length && o == |done| + gap
    requires d[..] == done + Zeros(d.Length - |done|)
    modifies d
    ensures d[..] == done + Zeros(gap) + f + Zeros(d.Length - |done| - gap - |f|)
    ensures gap == 0 ==> d[..] == done + f + Zeros(d.Length - |done| - |f|)
  {
    hide Spliced;
    SpliceZeros(done, gap, f, d.Length - |done|);
    Put(d, o, f);
    assert gap == 0 ==> done + Zeros(gap) == done;
  }

  lemma SpliceZeros(done: seq<byte>, gap: nat, f: seq<byte>, n: nat)
    requires gap + |f| <= n
    ensures Spliced(done + Zeros(n), |done| + gap, f) == done + Zeros(gap) + f + Zeros(n - gap - |f|)
  {}

  method WriteFileHeader(d: array<byte>, total: nat)
    requires d.Length >= 54 && d[..] == Zeros(d.Length)
    modifies d
    ensures d[..] == FileHeader(total) + Zeros(d.Length - 14)
  {
    hide Le32, Zeros;
    assert d[..] == [] + Zeros(d.Length);
    PutNext(d, 0, [66, 77], 0, []);
    assert [] + [66, 77] == [66, 77];
    PutNext(d, 0, Le32(total), 2, [66, 77]);
    PutNext(d, 4, Le32(54), 10, [66, 77] + Le32(total));
  }

  method WriteImageHeader(d: array<byte>, w: nat, h: nat, ghost done: seq<byte>)
    requires d.Length >= 54 && |done| == 14 && d[..] == done + Zeros(d.Length - 14)
    modifies d
    ensures d[..] == done + ImageHeader(w, h) + Zeros(d.Length - 30)
  {
    hide Le32, Zeros;
    PutNext(d, 0, Le32(40), 14, done);
    PutNext(d, 0, Le32(w), 18, done + Le32(40));
    PutNext(d, 0, Le32(h), 22, done + Le32(40) + Le32(w));
    PutNext(d, 0, Le16(1), 26, done + Le32(40) + Le32(w) + Le32(h));
    PutNext(d, 0, Le16(24), 28, done + Le32(40) + Le32(w) + Le32(h) + Le16(1));
    assert done + Le32(40) + Le32(w) + Le32(h) + Le16(1) + Le16(24) == done + ImageHeader(w, h);
  }

  method WriteHeader(d: array<byte>, w: nat, h: nat)
    requires d.Length == Total(w, h) && d[..] == Zeros(Total(w, h))
    modifies d
    ensures d[..] == Header(w, h) + Zeros(d.Length - 54)
  {
    hide Total, Le32, Zeros, FileHeader, ImageHeader;
    Long(w, h);
    var total, size := Total(w, h), Total(w, h) - 54;
    WriteFileHeader(d, total);
    WriteImageHeader(d, w, h, FileHeader(total));
    PutNext(d, 4, Le32(size), 34, FileHeader(total) + ImageHeader(w, h));
    LastZeros(FileHeader(total), ImageHeader(w, h), Le32(size), d.Length);
  }

  lemma Long(w: nat, h: nat)
    ensures 54 <= Total(w, h)
  {}

  lemma LastZeros(a: seq<byte>, b: seq<byte>, c: seq<byte>, n: nat)
    requires |a| == 14 && |b| == 16 && |c| == 4 && n >= 54
    ensures a + b + Zeros(4) + c + Zeros(n - 38) == a + (b + (Zeros(4) + c + Zeros(16))) + Zeros(n - 54)
  {}

  /** Writes an image as a 24-bit file, its rows from the bottom up. */
  method EncodeBmp24(img: Image) returns (data: seq<byte>)
    requires Sized(img)
    ensures Encodes(data, img)
  {
    hide Drawn, PadsAreZero, Headed, FilePlace, Pixel, Total, Spliced, Place, Bgr, Stride, Sized;
    var w, h := img.width, img.height;
    var stride := Stride(w, 3);
    var d := new byte[Total(w, h)](_ => 0);
    assert d[..] == Zeros(Total(w, h));
    WriteHeader(d, w, h);
    HeaderDone(d[..], img);
    for y := 0 to h
      invariant Headed(d[..], w, h) && Drawn(d[..], img, 0, y) && PadsAreZero(d[..], w, h)
    {
      var srcY := h - 1 - y;
      for x := 0 to w
        invariant Headed(d[..], w, h) && Drawn(d[..], img, x, y) && PadsAreZero(d[..], w, h)
      {
        ghost var before := d[..];
        DrawnMore(before, img, x, y);
        Corner(stride, x, y);
        SourcePixel(img, x, srcY);
        var srcOff := Place(w, x, srcY);
        var destOff := FilePlace(54, stride, 3, x, y);
        var r, g, b := img.pixels[srcOff], img.pixels[srcOff + 1], img.pixels[srcOff + 2];
        PutBgr(d, destOff, b, g, r);
        SpliceKeepsHeader(before, destOff, [b, g, r], w, h);
        PadsStayZero(before, w, h, x, y, [b, g, r]);
      }
      RowDrawn(d[..], img, y);
    }
    data := d[..];
  }

  lemma HeaderDone(d: seq<byte>, img: Image)
    requires Sized(img) && |d| == Total(img.width, img.height)
    requires d == Header(img.width, img.height) + Zeros(|d| - 54)
    ensures Headed(d, img.width, img.height) && Drawn(d, img, 0, 0) && PadsAreZero(d, img.width, img.height)
  {
    hide Header, Stride;
    forall v: nat, k: nat | v < img.height && k < Stride(img.width, 3) - img.width * 3
      ensures ByteAt(d, PadPlace(img.width, v, k)) == 0
    {
      assert PadPlace(img.width, v, k) >= 54;
    }
  }

  lemma Corner(stride: nat, x: nat, row: nat)
    ensures FilePlace(54, stride, 3, x, row) >= 54
  {}

  lemma SourcePixel(img: Image, x: nat, y: nat)
    requires Sized(img) && x < img.width && y < img.height
    ensures Place(img.width, x, y) + 4 <= |img.pixels|
    ensures var o := Place(img.width, x, y);
            Bgr(Pixel(img, x, y)) == [img.pixels[o + 2], img.pixels[o + 1], img.pixels[o]]
  {
    hide Place;
    PlaceInside(img.width, img.height, x, y);
  }

  method PutBgr(d: array<byte>, o: nat, b: byte, g: byte, r: byte)
    requires o + 3 <= d.Length
    modifies d
    ensures d[..] == Spliced(old(d[..]), o, [b, g, r])
  {
    d[o] := b;
    d[o + 1] := g;
    d[o + 2] := r;
  }

  lemma RowDrawn(d: seq<byte>, img: Image, row: nat)
    requires Sized(img) && Drawn(d, img, img.width, row)
    ensures Drawn(d, img, 0, row + 1)
  {
    hide FilePlace, Pixel, Three, Stride, Bgr;
  }
}
