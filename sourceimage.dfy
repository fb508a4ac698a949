/**
 * Seed image pixels (src/sourceimage.rs): the RGB triple and its derived
 * ordering, the row-major byte packing written for the PNG encoder, the
 * `chunks(3)` unpacking of a decoded frame, and the colour-type/bit-depth
 * acceptance check. The PNG codec and the files around it are not modelled.
 */
module SourceImage {
  import opened Wrappers
  import opened Grids

  type byte = x: int | 0 <= x < 256

  /** One pixel, `RGB(u8, u8, u8)`. */
  datatype RGB = RGB(r: byte, g: byte, b: byte)

  /** The derived `Ord`: lexicographic on the fields in declaration order. */
  predicate Less(a: RGB, b: RGB) {
    a.r < b.r || (a.r == b.r && (a.g < b.g || (a.g == b.g && a.b < b.b)))
  }

  predicate LessOrEqual(a: RGB, b: RGB) {
    Less(a, b) || a == b
  }

  /** The derived ordering is a strict total order, so sorting then deduplicating is well defined. */
  lemma LessIsStrictTotalOrder(a: RGB, b: RGB, c: RGB)
    ensures !Less(a, a)
    ensures Less(a, b) ==> !Less(b, a)
    ensures Less(a, b) && Less(b, c) ==> Less(a, c)
    ensures a == b || Less(a, b) || Less(b, a)
  {
  }

  // ---------------------------------------------------------------------
  // Packing for the encoder (`to_file`) and unpacking of a decoded frame (`load_file`).

  /** The byte stream the packing loop produces: r, g, b of every pixel in order. */
  function Packed(pixels: seq<RGB>): (raw: seq<byte>)
    ensures |raw| == 3 * |pixels|
    ensures forall k :: 0 <= k < |pixels| ==>
      raw[3 * k] == pixels[k].r && raw[3 * k + 1] == pixels[k].g && raw[3 * k + 2] == pixels[k].b
  {
    if |pixels| == 0 then []
    else
      var rest := Packed(pixels[1..]);
      assert forall k :: 1 <= k < |pixels| ==> pixels[k] == pixels[1..][k - 1];
      [pixels[0].r, pixels[0].g, pixels[0].b] + rest
  }

  /** The loop of `to_file` that pushes three bytes per pixel of `image_data.iter()` into `raw_data`. */
  method Pack(image: seq<seq<RGB>>) returns (raw: seq<byte>)
    ensures raw == Packed(Flatten(image))
  {
    var pixels := Flatten(image);
    raw := [];
    for k := 0 to |pixels|
      invariant |raw| == 3 * k
      invariant forall m :: 0 <= m < k ==>
        raw[3 * m] == pixels[m].r && raw[3 * m + 1] == pixels[m].g && raw[3 * m + 2] == pixels[m].b
    {
      raw := raw + [pixels[k].r];
      raw := raw + [pixels[k].g];
      raw := raw + [pixels[k].b];
    }
    PackedUnique(pixels, raw);
  }

  /** The length and the bytes at every position determine the packed stream. */
  lemma {:induction false} PackedUnique(pixels: seq<RGB>, raw: seq<byte>)
    requires |raw| == 3 * |pixels|
    requires forall m :: 0 <= m < |pixels| ==>
      raw[3 * m] == pixels[m].r && raw[3 * m + 1] == pixels[m].g && raw[3 * m + 2] == pixels[m].b
    ensures raw == Packed(pixels)
  {
    if |pixels| > 0 {
      var tail := raw[3..];
      forall m | 0 <= m < |pixels| - 1
        ensures tail[3 * m] == pixels[1..][m].r && tail[3 * m + 1] == pixels[1..][m].g
          && tail[3 * m + 2] == pixels[1..][m].b
      {
        assert 3 * (m + 1) == 3 * m + 3;
      }
      PackedUnique(pixels[1..], tail);
      assert raw == [raw[0], raw[1], raw[2]] + tail;
    }
  }

  /** Pixel (i, j) of an h-by-w image occupies bytes 3(iw+j) to 3(iw+j)+2 of the packed stream. */
  lemma PackedRowMajor(image: seq<seq<RGB>>, h: nat, w: nat, i: nat, j: nat)
    requires IsGrid(image, h, w) && i < h && j < w
    ensures |Packed(Flatten(image))| == 3 * (h * w)
    ensures var k := i * w + j; var raw := Packed(Flatten(image));
      3 * k + 2 < |raw| && raw[3 * k] == image[i][j].r && raw[3 * k + 1] == image[i][j].g
      && raw[3 * k + 2] == image[i][j].b
  {
    FlattenAt(image, h, w, i, j);
  }

  /**
   * `buf.chunks(3).map(|s| RGB(s[0], s[1], s[2]))`. A trailing chunk shorter
   * than three bytes would make `s[1]` or `s[2]` panic, hence the precondition;
   * the decoder's RGB/8-bit frame is always three bytes per pixel.
   */
  function Unpack(buf: seq<byte>): (pixels: seq<RGB>)
    requires |buf| % 3 == 0
    ensures 3 * |pixels| == |buf|
  {
    if |buf| == 0 then [] else [RGB(buf[0], buf[1], buf[2])] + Unpack(buf[3..])
  }

  /** The k-th pixel is built from bytes 3k, 3k+1 and 3k+2. */
  lemma {:induction false} UnpackAt(buf: seq<byte>, k: nat)
    requires |buf| % 3 == 0 && k < |buf| / 3
    ensures |Unpack(buf)| == |buf| / 3
    ensures Unpack(buf)[k] == RGB(buf[3 * k], buf[3 * k + 1], buf[3 * k + 2])
  {
    if k > 0 {
      UnpackAt(buf[3..], k - 1);
      assert 3 * k == 3 * (k - 1) + 3;
    }
  }

  /** Decoding what the encoder was given returns the original pixels. */
  lemma UnpackPacked(pixels: seq<RGB>)
    ensures |Packed(pixels)| % 3 == 0
    ensures Unpack(Packed(pixels)) == pixels
  {
    var raw := Packed(pixels);
    var u := Unpack(raw);
    forall k | 0 <= k < |u| ensures u[k] == pixels[k] {
      UnpackAt(raw, k);
    }
  }

  /** Packing a decoded frame gives back the frame's bytes. */
  lemma PackedUnpack(buf: seq<byte>)
    requires |buf| % 3 == 0
    ensures Packed(Unpack(buf)) == buf
  {
    var u := Unpack(buf);
    forall m | 0 <= m < |u|
      ensures buf[3 * m] == u[m].r && buf[3 * m + 1] == u[m].g && buf[3 * m + 2] == u[m].b
    {
      UnpackAt(buf, m);
    }
    PackedUnique(u, buf);
  }

  // ---------------------------------------------------------------------
  // Colour type and bit depth of a decoded PNG header.

  datatype ColorType = Grayscale | Rgb | Indexed | GrayscaleAlpha | Rgba
  datatype BitDepth = One | Two | Four | Eight | Sixteen

  /** The "Wrong color type or bit depth" error, with what the header said. */
  datatype FormatError = WrongFormat(colorType: ColorType, bitDepth: BitDepth)

  /** The `match (info.color_type, info.bit_depth)` of `load_file`. */
  function CheckFormat(colorType: ColorType, bitDepth: BitDepth): (r: Result<(), FormatError>)
    ensures r.Ok? <==> colorType == Rgb && bitDepth == Eight
    ensures r.Err? ==> r.error == WrongFormat(colorType, bitDepth)
  {
    match (colorType, bitDepth)
    case (Rgb, Eight) => Ok(())
    case (j, k) => Err(WrongFormat(j, k))
  }

  /** `load_file` past the decoder: reject a wrong header, otherwise unpack the frame. */
  function LoadPixels(colorType: ColorType, bitDepth: BitDepth, frame: seq<byte>): (r: Result<seq<RGB>, FormatError>)
    requires colorType == Rgb && bitDepth == Eight ==> |frame| % 3 == 0
    ensures r.Err? <==> !(colorType == Rgb && bitDepth == Eight)
    ensures r.Ok? ==> 3 * |r.value| == |frame| && Packed(r.value) == frame
  {
    match CheckFormat(colorType, bitDepth)
    case Err(e) => Err(e)
    case Ok(_) => PackedUnpack(frame); Ok(Unpack(frame))
  }
}
