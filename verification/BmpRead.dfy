/** The image viewer's BMP reader, what it shows of a written file, and the quarter
    turn of an image. */
module BmpRead {
  import opened LittleEndian
  import opened Bits
  import opened Bmp

  /** What the headers say: sizes, whether rows run from the bottom, bytes a pixel, and
      where the pixels start. */
  datatype Head = Head(width: nat, height: nat, upward: bool, bytes: nat, start: nat)

  function ReadHead(d: seq<byte>): (r: Result<Head>)
    ensures r.Ok? ==> 0 < r.value.width <= 8192 && 0 < r.value.height <= 8192
    ensures r.Ok? ==> r.value.bytes == 3 || r.value.bytes == 4
  {
    if |d| < 54 then Err(InvalidHeader)
    else
      var width, signed := Read32(d, 18), Signed(Read32(d, 22));
      var height := if signed < 0 then -signed else signed;
      var bits, packing := Read16(d, 28), Read32(d, 30);
      if width == 0 || height == 0 || width > 8192 || height > 8192 then Err(UnsupportedFormat)
      else if packing != 0 && packing != 3 then Err(UnsupportedFormat)
      else if bits != 24 && bits != 32 then Err(UnsupportedFormat)
      else Ok(Head(width, height, signed > 0, bits / 8, Read32(d, 10)))
  }

  /** The place of pixel (x, y), y counted from the top of the image. */
  function ShownPlace(k: Head, x: nat, y: nat): (o: nat)
    requires y < k.height
  {
    FilePlace(k.start, Stride(k.width, k.bytes), k.bytes, x, if k.upward then k.height - 1 - y else y)
  }

  /** What the reader shows at (x, y): the file's pixel, or transparent black past its end. */
  function Shown(d: seq<byte>, k: Head, x: nat, y: nat): (c: Rgba)
    requires y < k.height && (k.bytes == 3 || k.bytes == 4)
  {
    var o := ShownPlace(k, x, y);
    if o + k.bytes > |d| then Rgba(0, 0, 0, 0)
    else Rgba(d[o + 2], d[o + 1], d[o], if k.bytes == 4 then d[o + 3] else 255)
  }

  ghost predicate Shows(img: Image, d: seq<byte>, k: Head)
    requires k.bytes == 3 || k.bytes == 4
  {
    && Sized(img) && img.width == k.width && img.height == k.height
    && forall x: nat, y: nat :: x < k.width && y < k.height ==> Pixel(img, x, y) == Shown(d, k, x, y)
  }

  // ----- the reader -----

  /** The buffer when the pixels before (x, y) are set and the others still zero. */
  ghost predicate Filled(p: seq<byte>, d: seq<byte>, k: Head, x: nat, y: nat)
    requires k.bytes == 3 || k.bytes == 4
  {
    && |p| == k.width * k.height * 4
    && forall u: nat, v: nat :: u < k.width && v < k.height ==>
         Four(p, Place(k.width, u, v)) == Quad(if Before(u, v, x, y) then Shown(d, k, u, v) else Rgba(0, 0, 0, 0))
  }

  function Four(p: seq<byte>, o: nat): (s: seq<byte>) { if o + 4 <= |p| then p[o..o + 4] else [] }

  function Quad(c: Rgba): (s: seq<byte>) { [c.r, c.g, c.b, c.a] }

  lemma FilledMore(p: seq<byte>, d: seq<byte>, k: Head, x: nat, y: nat)
    requires (k.bytes == 3 || k.bytes == 4) && x < k.width && y < k.height && Filled(p, d, k, x, y)
    ensures Place(k.width, x, y) + 4 <= |p|
    ensures Filled(Spliced(p, Place(k.width, x, y), Quad(Shown(d, k, x, y))), d, k, x + 1, y)
  {
    hide Place, Shown, Spliced, Four, Quad;
    var w, h := k.width, k.height;
    PlaceInside(w, h, x, y);
    var o, f := Place(w, x, y), Quad(Shown(d, k, x, y));
    FourHere(p, o, Shown(d, k, x, y));
    var q := Spliced(p, o, f);
    forall u: nat, v: nat | u < w && v < h
      ensures Four(q, Place(w, u, v)) == Quad(if Before(u, v, x + 1, y) then Shown(d, k, u, v) else Rgba(0, 0, 0, 0))
    {
      if u == x && v == y {
      } else {
        if Before(u, v, x, y) { PlaceApart(w, x, y, u, v); } else { PlaceApart(w, u, v, x, y); }
        FourKept(p, o, f, Place(w, u, v));
        assert Before(u, v, x + 1, y) <==> Before(u, v, x, y);
      }
    }
  }

  lemma FourHere(p: seq<byte>, o: nat, c: Rgba)
    requires o + 4 <= |p|
    ensures |Quad(c)| == 4 && Four(Spliced(p, o, Quad(c)), o) == Quad(c)
  {}

  lemma FourKept(p: seq<byte>, o: nat, f: seq<byte>, q: nat)
    requires o + |f| <= |p| && (q + 4 <= o || o + |f| <= q)
    ensures Four(Spliced(p, o, f), q) == Four(p, q)
  {
    if q + 4 <= |p| {
      assert Spliced(p, o, f)[q..q + 4] == p[q..q + 4];
    }
  }

  /** Past the end of the file the rest of the row is past it too. */
  lemma RestIsPast(p: seq<byte>, d: seq<byte>, k: Head, x: nat, y: nat)
    requires (k.bytes == 3 || k.bytes == 4) && x < k.width && y < k.height && Filled(p, d, k, x, y)
    requires ShownPlace(k, x, y) + k.bytes > |d|
    ensures Filled(p, d, k, k.width, y)
  {
    hide Place, Four, Quad, Stride;
    forall u: nat | x <= u < k.width ensures Shown(d, k, u, y) == Rgba(0, 0, 0, 0) {
      Grow(x, u, k.bytes);
      assert ShownPlace(k, u, y) >= ShownPlace(k, x, y);
    }
    forall u: nat, v: nat | u < k.width && v < k.height
      ensures Four(p, Place(k.width, u, v)) == Quad(
              if Before(u, v, k.width, y) then Shown(d, k, u, v) else Rgba(0, 0, 0, 0))
    {
      if !Before(u, v, x, y) && Before(u, v, k.width, y) {
        assert Shown(d, k, u, y) == Rgba(0, 0, 0, 0);
      }
    }
  }

  lemma RowFilled(p: seq<byte>, d: seq<byte>, k: Head, y: nat)
    requires (k.bytes == 3 || k.bytes == 4) && Filled(p, d, k, k.width, y)
    ensures Filled(p, d, k, 0, y + 1)
  {
    hide Place, Four, Quad, Shown;
    forall u: nat, v: nat | u < k.width && v < k.height
      ensures Four(p, Place(k.width, u, v)) == Quad(
              if Before(u, v, 0, y + 1) then Shown(d, k, u, v) else Rgba(0, 0, 0, 0))
    {
      assert Before(u, v, 0, y + 1) <==> Before(u, v, k.width, y);
    }
  }

  lemma NothingFilled(p: seq<byte>, d: seq<byte>, k: Head)
    requires (k.bytes == 3 || k.bytes == 4) && p == Zeros(k.width * k.height * 4)
    ensures Filled(p, d, k, 0, 0)
  {
    hide Place, Shown;
    forall u: nat, v: nat | u < k.width && v < k.height
      ensures Four(p, Place(k.width, u, v)) == Quad(Rgba(0, 0, 0, 0))
    {
      PlaceInside(k.width, k.height, u, v);
    }
  }

  lemma AllFilled(p: seq<byte>, d: seq<byte>, k: Head)
    requires (k.bytes == 3 || k.bytes == 4) && Filled(p, d, k, 0, k.height)
    ensures Shows(Image(k.width, k.height, p), d, k)
  {
    hide Place, Shown;
    forall x: nat, y: nat | x < k.width && y < k.height
      ensures Pixel(Image(k.width, k.height, p), x, y) == Shown(d, k, x, y)
    {
      PlaceInside(k.width, k.height, x, y);
      var o := Place(k.width, x, y);
      assert Four(p, o) == Quad(Shown(d, k, x, y));
      assert p[o..o + 4][0] == p[o] && p[o..o + 4][1] == p[o + 1] &&
             p[o..o + 4][2] == p[o + 2] && p[o..o + 4][3] == p[o + 3];
    }
  }

  /** Reads a file: refused exactly when its headers are, else every pixel as shown. */
  method DecodeBmp(d: seq<byte>) returns (r: Result<Image>)
    ensures ReadHead(d).Err? ==> r == Err(ReadHead(d).fault)
    ensures ReadHead(d).Ok? ==> r.Ok? && Shows(r.value, d, ReadHead(d).value)
  {
    hide Filled, Shown, ShownPlace, Place, Shows, Quad, Spliced;
    var head := ReadHead(d);
    if head.Err? { return Err(head.fault); }
    var k := head.value;
    var p := new byte[k.width * k.height * 4](_ => 0);
    assert p[..] == Zeros(k.width * k.height * 4);
    NothingFilled(p[..], d, k);
    for y := 0 to k.height
      invariant Filled(p[..], d, k, 0, y)
    {
      var x := 0;
      while x < k.width
        invariant x <= k.width && Filled(p[..], d, k, x, y)
      {
        var off := ShownPlace(k, x, y);
        if off + k.bytes > |d| {
          RestIsPast(p[..], d, k, x, y);
          x := k.width;
          break;
        }
        FilledMore(p[..], d, k, x, y);
        SetPixel(p, Place(k.width, x, y), ReadPixel(d, k, off, x, y));
        x := x + 1;
      }
      RowFilled(p[..], d, k, y);
    }
    AllFilled(p[..], d, k);
    return Ok(Image(k.width, k.height, p[..]));
  }

  function ReadPixel(d: seq<byte>, k: Head, off: nat, x: nat, y: nat): (c: Rgba)
    requires (k.bytes == 3 || k.bytes == 4) && off + k.bytes <= |d|
    ensures y < k.height && off == ShownPlace(k, x, y) ==> c == Shown(d, k, x, y)
  {
    Rgba(d[off + 2], d[off + 1], d[off], if k.bytes == 4 then d[off + 3] else 255)
  }

  method SetPixel(p: array<byte>, o: nat, c: Rgba)
    requires o + 4 <= p.Length
    modifies p
    ensures |Quad(c)| == 4 && p[..] == Spliced(old(p[..]), o, Quad(c))
  {
    Put(p, o, [c.r, c.g, c.b, c.a]);
  }

  // ----- the round trip -----

  /** Reading back a written image shows its size and colours, all opaque. */
  lemma ReadsWhatWasWritten(d: seq<byte>, img: Image)
    requires Sized(img) && Encodes(d, img) && 1 <= img.width <= 8192 && 1 <= img.height <= 8192
    ensures ReadHead(d) == Ok(Head(img.width, img.height, true, 3, 54))
    ensures forall x: nat, y: nat :: x < img.width && y < img.height ==>
      Shown(d, Head(img.width, img.height, true, 3, 54), x, y) == Pixel(img, x, y).(a := 255)
  {
    hide Drawn, PadsAreZero, Encodes, Total, Pixel, Shown;
    WrittenHead(d, img);
    forall x: nat, y: nat | x < img.width && y < img.height
      ensures Shown(d, Head(img.width, img.height, true, 3, 54), x, y) == Pixel(img, x, y).(a := 255)
    {
      WrittenPixel(d, img, x, y);
    }
  }

  lemma WrittenPixel(d: seq<byte>, img: Image, x: nat, y: nat)
    requires Sized(img) && Encodes(d, img) && x < img.width && y < img.height
    ensures Shown(d, Head(img.width, img.height, true, 3, 54), x, y) == Pixel(img, x, y).(a := 255)
  {
    hide PadsAreZero, Headed, Pixel, FilePlace, Stride;
    var w, h := img.width, img.height;
    var o := FilePlace(54, Stride(w, 3), 3, x, h - 1 - y);
    Wide(w);
    FileInside(Stride(w, 3), 3, w, h, x, h - 1 - y);
    assert Before(x, h - 1 - y, 0, h);
    assert Three(d, o) == Bgr(Pixel(img, x, h - 1 - (h - 1 - y)));
    assert d[o..o + 3][0] == d[o] && d[o..o + 3][1] == d[o + 1] && d[o..o + 3][2] == d[o + 2];
  }

  lemma WrittenHead(d: seq<byte>, img: Image)
    requires Sized(img) && Encodes(d, img) && 1 <= img.width <= 8192 && 1 <= img.height <= 8192
    ensures ReadHead(d) == Ok(Head(img.width, img.height, true, 3, 54))
  {
    hide Drawn, PadsAreZero, Total, Le32, Le16, Field, Read32, Read16, Header;
    var w, h := img.width, img.height;
    HeaderFields(d, w, h);
    ReadBack(d, 10, 54);
    ReadBack(d, 18, w);
    ReadBack(d, 22, h);
    ReadBack(d, 30, 0);
    ReadBack16(d, 28, 24);
  }

  lemma HeaderFields(d: seq<byte>, w: nat, h: nat)
    requires Headed(d, w, h)
    ensures Field(d, 10, Le32(54)) && Field(d, 18, Le32(w)) && Field(d, 22, Le32(h)) && Field(d, 28, Le16(24))
    ensures Field(d, 30, Le32(0))
  {
    hide Total, Le32, Le16, FileHeader, ImageHeader, Zeros;
    Long(w, h);
    var a, b, c := FileHeader(Total(w, h)), ImageHeader(w, h), Zeros(4) + Le32(Total(w, h) - 54) + Zeros(16);
    Parts(d, a, b, c);
    FileHeaderStart(Total(w, h));
    ImageHeaderSizes(w, h);
    NoNumber();
    assert c[0..4] == Zeros(4);
  }

  lemma FileHeaderStart(total: nat)
    ensures FileHeader(total)[10..14] == Le32(54)
  {
    hide Le32, Zeros;
  }

  lemma ImageHeaderSizes(w: nat, h: nat)
    ensures var b := ImageHeader(w, h); b[4..8] == Le32(w) && b[8..12] == Le32(h) && b[14..16] == Le16(24)
  {
    hide Le32, Le16;
  }

  lemma NoNumber()
    ensures Le32(0) == Zeros(4)
  {}

  /** A slice of a slice. */
  lemma Inner(d: seq<byte>, lo: nat, hi: nat, a: nat, b: nat)
    requires lo <= hi <= |d| && a <= b <= hi - lo
    ensures d[lo..hi][a..b] == d[lo + a..lo + b]
  {
    var x := d[lo + a..lo + b];
    forall i | 0 <= i < |x| ensures x[i] == d[lo..hi][a + i] {
      assert x[i] == d[lo + a + i];
    }
  }

  /** The three parts of a header, and fields inside them. */
  lemma Parts(d: seq<byte>, a: seq<byte>, b: seq<byte>, c: seq<byte>)
    requires |d| >= 54 && |a| == 14 && |b| == 16 && |c| == 24 && d[..54] == a + (b + c)
    ensures d[10..14] == a[10..14] && d[18..22] == b[4..8] && d[22..26] == b[8..12] && d[28..30] == b[14..16]
    ensures d[30..34] == c[0..4]
  {
    Split(d, a, b, c);
    Inner(d, 0, 14, 10, 14);
    Inner(d, 14, 30, 4, 8);
    Inner(d, 14, 30, 8, 12);
    Inner(d, 14, 30, 14, 16);
    Inner(d, 30, 54, 0, 4);
  }

  lemma Split(d: seq<byte>, a: seq<byte>, b: seq<byte>, c: seq<byte>)
    requires |d| >= 54 && |a| == 14 && |b| == 16 && |c| == 24 && d[..54] == a + (b + c)
    ensures d[0..14] == a && d[14..30] == b && d[30..54] == c
  {
    var all := a + (b + c);
    forall i | 0 <= i < 54 ensures d[i] == all[i] {
      assert d[..54][i] == d[i];
    }
  }

  // ----- the quarter turn -----

  /** A clockwise quarter turn. */
  ghost predicate Turned(a: Image, b: Image) {
    && Sized(a) && Sized(b) && b.width == a.height && b.height == a.width
    && forall x: nat, y: nat :: x < a.width && y < a.height ==> Pixel(b, a.height - 1 - y, x) == Pixel(a, x, y)
  }

  /** Four quarter turns give back every pixel. */
  lemma FourTurns(a: Image, b: Image, c: Image, d: Image, e: Image, x: nat, y: nat)
    requires Turned(a, b) && Turned(b, c) && Turned(c, d) && Turned(d, e)
    ensures e.width == a.width && e.height == a.height
    ensures x < a.width && y < a.height ==> Pixel(e, x, y) == Pixel(a, x, y)
  {
    hide Pixel, Sized;
    if x < a.width && y < a.height {
      var w, h := a.width, a.height;
      assert Pixel(b, h - 1 - y, x) == Pixel(a, x, y);
      assert Pixel(c, w - 1 - x, h - 1 - y) == Pixel(b, h - 1 - y, x);
      assert Pixel(d, h - 1 - (h - 1 - y), w - 1 - x) == Pixel(c, w - 1 - x, h - 1 - y);
      assert Pixel(e, w - 1 - (w - 1 - x), y) == Pixel(d, y, w - 1 - x);
    }
  }

  /** The turned buffer when the pixels before (x, y) of the image have been moved. */
  ghost predicate Moved(p: seq<byte>, img: Image, x: nat, y: nat)
    requires Sized(img)
  {
    && |p| == img.width * img.height * 4
    && forall u: nat, v: nat :: u < img.width && v < img.height && Before(u, v, x, y) ==>
         Four(p, Place(img.height, img.height - 1 - v, u)) == Quad(Pixel(img, u, v))
  }

  lemma MovedMore(p: seq<byte>, img: Image, x: nat, y: nat)
    requires Sized(img) && x < img.width && y < img.height && Moved(p, img, x, y)
    ensures Place(img.height, img.height - 1 - y, x) + 4 <= |p|
    ensures Moved(Spliced(p, Place(img.height, img.height - 1 - y, x), Quad(Pixel(img, x, y))), img, x + 1, y)
  {
    hide Place, Pixel, Spliced, Four, Quad;
    var w, h := img.width, img.height;
    PlaceInside(h, w, h - 1 - y, x);
    var o, f := Place(h, h - 1 - y, x), Quad(Pixel(img, x, y));
    FourHere(p, o, Pixel(img, x, y));
    var q := Spliced(p, o, f);
    forall u: nat, v: nat | u < w && v < h && Before(u, v, x + 1, y)
      ensures Four(q, Place(h, h - 1 - v, u)) == Quad(Pixel(img, u, v))
    {
      if !(u == x && v == y) {
        if Before(h - 1 - v, u, h - 1 - y, x) { PlaceApart(h, h - 1 - y, x, h - 1 - v, u); }
        else { PlaceApart(h, h - 1 - v, u, h - 1 - y, x); }
        FourKept(p, o, f, Place(h, h - 1 - v, u));
      }
    }
  }

  lemma RowMoved(p: seq<byte>, img: Image, y: nat)
    requires Sized(img) && Moved(p, img, img.width, y)
    ensures Moved(p, img, 0, y + 1)
  {
    hide Place, Four, Quad, Pixel;
  }

  lemma AllMoved(p: seq<byte>, img: Image)
    requires Sized(img) && Moved(p, img, 0, img.height)
    ensures Turned(img, Image(img.height, img.width, p))
  {
    hide Place;
    var t := Image(img.height, img.width, p);
    assert img.width * img.height == img.height * img.width;
    forall x: nat, y: nat | x < img.width && y < img.height
      ensures Pixel(t, img.height - 1 - y, x) == Pixel(img, x, y)
    {
      PlaceInside(img.height, img.width, img.height - 1 - y, x);
      var o := Place(img.height, img.height - 1 - y, x);
      assert Four(p, o) == Quad(Pixel(img, x, y));
      assert p[o..o + 4][0] == p[o] && p[o..o + 4][1] == p[o + 1] &&
             p[o..o + 4][2] == p[o + 2] && p[o..o + 4][3] == p[o + 3];
    }
  }

  class Picture {
    var image: Image

    constructor (image: Image)
      ensures this.image == image
    {
      this.image := image;
    }

    /** Turns the picture a quarter, in a buffer of its own. */
    method Rotate()
      requires Sized(image)
      modifies this
      ensures Turned(old(image), image)
    {
      hide Moved, Place, Pixel, Sized, Quad, Spliced, Turned;
      var w, h := image.width, image.height;
      var p := new byte[w * h * 4](_ => 0);
      NothingMoved(p[..], image);
      for y := 0 to h
        invariant image == old(image) && Moved(p[..], image, 0, y)
      {
        for x := 0 to w
          invariant image == old(image) && Moved(p[..], image, x, y)
        {
          MovedMore(p[..], image, x, y);
          SourceInside(image, x, y);
          var from := Place(w, x, y);
          SetPixel(p, Place(h, h - 1 - y, x), PixelAt(image.pixels, from));
        }
        RowMoved(p[..], image, y);
      }
      AllMoved(p[..], image);
      image := Image(h, w, p[..]);
    }
  }

  lemma NothingMoved(p: seq<byte>, img: Image)
    requires Sized(img) && |p| == img.width * img.height * 4
    ensures Moved(p, img, 0, 0)
  {}

  lemma SourceInside(img: Image, x: nat, y: nat)
    requires Sized(img) && x < img.width && y < img.height
    ensures Place(img.width, x, y) + 4 <= |img.pixels|
    ensures PixelAt(img.pixels, Place(img.width, x, y)) == Pixel(img, x, y)
  {
    PlaceInside(img.width, img.height, x, y);
  }
}
