/** BMP files of every form the reader knows, whoever wrote them: rows from the bottom or from the
    top, three or four bytes a pixel, the pixels anywhere in the file. */
module BmpForms {
  import opened LittleEndian
  import opened Bits
  import opened Bmp
  import opened BmpRead

  /** The header of a written file says what the file is: its signature, its length, where the
      pixels are and how many bytes they take, one plane of 24 bits a pixel, not packed. */
  lemma WrittenFields(d: seq<byte>, img: Image)
    requires Sized(img) && Encodes(d, img) && |d| < 0x1_0000_0000
    ensures d[..2] == [66, 77] && Read32(d, 2) == |d| && Read32(d, 10) == 54
    ensures Read32(d, 14) == 40 && Read16(d, 26) == 1 && Read16(d, 28) == 24 && Read32(d, 30) == 0
    ensures Read32(d, 34) == |d| - 54
    ensures exists n: nat :: n % 4 == 0 && 3 * img.width <= n < 3 * img.width + 4 && |d| == 54 + n * img.height
  {
    hide Drawn, PadsAreZero, Total, Le32, Le16, Field, Read32, Read16, FileHeader, ImageHeader, Zeros;
    var w, h := img.width, img.height;
    var n := Total(w, h);
    Long(w, h);
    var a, b, c := FileHeader(n), ImageHeader(w, h), Zeros(4) + Le32(n - 54) + Zeros(16);
    MoreParts(d, a, b, c);
    FileFields(n);
    ImageFields(w, h);
    SizeField(n - 54);
    HeaderFields(d, w, h);
    AsField(d, 2, Le32(n));
    AsField(d, 14, Le32(40));
    AsField(d, 26, Le16(1));
    AsField(d, 34, Le32(n - 54));
    ReadBack(d, 2, n);
    ReadBack(d, 10, 54);
    ReadBack(d, 14, 40);
    ReadBack16(d, 26, 1);
    ReadBack16(d, 28, 24);
    ReadBack(d, 30, 0);
    ReadBack(d, 34, n - 54);
    FileSize(w, h);
  }

  lemma FileSize(w: nat, h: nat)
    ensures exists n: nat :: n % 4 == 0 && 3 * w <= n < 3 * w + 4 && Total(w, h) == 54 + n * h
  {
    assert Stride(w, 3) % 4 == 0;
  }

  lemma AsField(d: seq<byte>, o: nat, f: seq<byte>)
    requires o + |f| <= |d| && d[o..o + |f|] == f
    ensures Field(d, o, f)
  {}

  lemma FileFields(n: nat)
    ensures FileHeader(n)[0..2] == [66, 77] && FileHeader(n)[2..6] == Le32(n)
  {
    hide Le32, Zeros;
  }

  lemma ImageFields(w: nat, h: nat)
    ensures ImageHeader(w, h)[0..4] == Le32(40) && ImageHeader(w, h)[12..14] == Le16(1)
  {
    hide Le32, Le16;
  }

  lemma SizeField(n: nat)
    ensures (Zeros(4) + Le32(n) + Zeros(16))[4..8] == Le32(n)
  {
    hide Le32, Zeros;
  }

  lemma MoreParts(d: seq<byte>, a: seq<byte>, b: seq<byte>, c: seq<byte>)
    requires |d| >= 54 && |a| == 14 && |b| == 16 && |c| == 24 && d[..54] == a + (b + c)
    ensures d[..2] == a[0..2] && d[2..6] == a[2..6] && d[14..18] == b[0..4] && d[26..28] == b[12..14]
    ensures d[34..38] == c[4..8]
  {
    Split(d, a, b, c);
    Inner(d, 0, 14, 0, 2);
    Inner(d, 0, 14, 2, 6);
    Inner(d, 14, 30, 0, 4);
    Inner(d, 14, 30, 12, 14);
    Inner(d, 30, 54, 4, 8);
  }

  /** Which files are refused, exactly, by the fields of the header: sizes at 18 and 22, the second
      signed, bits a pixel at 28, packing at 30. */
  lemma RefusedExactly(d: seq<byte>)
    ensures |d| < 54 ==> ReadHead(d) == Err(InvalidHeader)
    ensures |d| >= 54 ==>
      var w, h := FromLe(d[18..22]), FromLe(d[22..26]);
      && (ReadHead(d).Err? ==> ReadHead(d).fault == UnsupportedFormat)
      && (ReadHead(d).Ok? <==>
          && 1 <= w <= 8192 && (1 <= h <= 8192 || 1 <= 0x1_0000_0000 - h <= 8192)
          && FromLe(d[28..30]) in {24, 32} && FromLe(d[30..34]) in {0, 3})
  {
    if |d| >= 54 {
      Widths();
      assert |d[22..26]| == 4;
    }
  }

  /** A file with these headers and, row by row, the pixels of an image. A row takes the least
      multiple of four bytes that holds its pixels. */
  ghost predicate IsBmp(d: seq<byte>, img: Image, upward: bool, bytes: nat, packing: nat, start: nat, stride: nat)
    requires Sized(img)
  {
    var w, h := img.width, img.height;
    && |d| >= 54 && start + stride * h <= |d| && start < 0x1_0000_0000
    && Field(d, 10, Le32(start)) && Field(d, 18, Le32(w))
    && (if upward then Field(d, 22, Le32(h)) else h <= 0x8000_0000 && Field(d, 22, Le32(0x1_0000_0000 - h)))
    && Field(d, 28, Le16(8 * bytes)) && Field(d, 30, Le32(packing))
    && stride % 4 == 0 && w * bytes <= stride < w * bytes + 4
    && forall x: nat, y: nat :: x < w && y < h ==>
         HasPixel(d, Offset(start, if upward then h - 1 - y else y, stride, x, bytes), bytes, Pixel(img, x, y))
  }

  function Offset(start: nat, row: nat, stride: nat, x: nat, bytes: nat): (o: nat) { start + row * stride + x * bytes }

  /** Blue, green, red and, where there are four bytes, alpha. */
  predicate HasPixel(d: seq<byte>, o: nat, bytes: nat, c: Rgba) {
    o + bytes <= |d| && bytes >= 3 && d[o] == c.b && d[o + 1] == c.g && d[o + 2] == c.r
    && (bytes == 4 ==> d[o + 3] == c.a)
  }

  lemma OnlyStride(a: nat, b: nat, n: nat)
    requires a % 4 == 0 && b % 4 == 0 && n <= a < n + 4 && n <= b < n + 4
    ensures a == b
  {}

  /** Every such file is read as its image; without alpha in the file all is opaque. */
  lemma FormsAreRead(d: seq<byte>, img: Image, upward: bool, bytes: nat, packing: nat, start: nat, stride: nat)
    requires Sized(img) && 1 <= img.width <= 8192 && 1 <= img.height <= 8192
    requires (bytes == 3 || bytes == 4) && (packing == 0 || packing == 3)
    requires IsBmp(d, img, upward, bytes, packing, start, stride)
    ensures ReadHead(d) == Ok(Head(img.width, img.height, upward, bytes, start))
    ensures forall x: nat, y: nat :: x < img.width && y < img.height ==>
      Shown(d, Head(img.width, img.height, upward, bytes, start), x, y)
      == if bytes == 4 then Pixel(img, x, y) else Pixel(img, x, y).(a := 255)
  {
    hide Pixel, Shown, HasPixel, Le32, Le16, Read32, Read16, Field;
    var w, h := img.width, img.height;
    ReadBack(d, 10, start);
    ReadBack(d, 18, w);
    ReadBack(d, 22, if upward then h else 0x1_0000_0000 - h);
    ReadBack16(d, 28, 8 * bytes);
    ReadBack(d, 30, packing);
    forall x: nat, y: nat | x < w && y < h
      ensures Shown(d, Head(w, h, upward, bytes, start), x, y)
           == if bytes == 4 then Pixel(img, x, y) else Pixel(img, x, y).(a := 255)
    {
      OnlyStride(stride, Stride(w, bytes), w * bytes);
      ShowsPixel(d, Head(w, h, upward, bytes, start), x, y, Pixel(img, x, y));
    }
  }

  lemma ShowsPixel(d: seq<byte>, k: Head, x: nat, y: nat, c: Rgba)
    requires y < k.height && (k.bytes == 3 || k.bytes == 4)
    requires var row := if k.upward then k.height - 1 - y else y;
             HasPixel(d, Offset(k.start, row, Stride(k.width, k.bytes), x, k.bytes), k.bytes, c)
    ensures Shown(d, k, x, y) == if k.bytes == 4 then c else c.(a := 255)
  {}
}
