/**
 * The one-way conversions from FreeType records to host values: the
 * encoding tag, the gray bitmap as RGBA image data, and the copies of the
 * charmap and fixed-size arrays.
 */
module Marshal {
  import opened Wrappers
  import opened FreeType

  // ---------------------------------------------------------------------
  // Encoding tags

  /** The four bytes of an encoding, most significant first. */
  function TagBytes(encoding: bv32): seq<byte> {
    [ ((encoding >> 24) & 0xff) as byte,
      ((encoding >> 16) & 0xff) as byte,
      ((encoding >> 8) & 0xff) as byte,
      (encoding & 0xff) as byte ]
  }

  /** FreeType's `FT_ENC_TAG`: four bytes packed into 32 bits, the first one highest. */
  function PackTag(b: seq<byte>): bv32
    requires |b| == 4
  {
    (b[0] as bv32 << 24) | (b[1] as bv32 << 16) | (b[2] as bv32 << 8) | b[3] as bv32
  }

  /** The bytes of a NUL-terminated C string held in `raw`: everything before the first 0. */
  function CString(raw: seq<byte>): (s: seq<byte>)
    ensures s <= raw
    ensures 0 !in s
    ensures |s| < |raw| ==> raw[|s|] == 0
  {
    if raw == [] || raw[0] == 0 then [] else [raw[0]] + CString(raw[1..])
  }

  /** `Encoding_Getter`: the tag as a string, cut at the first zero byte. */
  function EncodingTag(cm: CharMapRec): seq<byte> {
    CString(TagBytes(cm.encoding))
  }

  /** Byte k of the tag is bits 8*(3-k) .. 8*(3-k)+7 of the encoding. */
  lemma TagBytesAreBigEndian(encoding: bv32, k: nat)
    requires k < 4
    ensures |TagBytes(encoding)| == 4
    ensures TagBytes(encoding)[k] == ((encoding >> (8 * (3 - k))) & 0xff) as byte
  {
    if k == 0 {
      assert encoding >> (8 * (3 - k)) == encoding >> 24;
    } else if k == 1 {
      assert encoding >> (8 * (3 - k)) == encoding >> 16;
    } else if k == 2 {
      assert encoding >> (8 * (3 - k)) == encoding >> 8;
    } else {
      assert encoding >> (8 * (3 - k)) == encoding >> 0;
    }
  }

  /** Splitting into bytes and packing them again are inverse to each other. */
  lemma TagBytesRoundTrip(encoding: bv32, b: seq<byte>)
    requires |b| == 4
    ensures PackTag(TagBytes(encoding)) == encoding
    ensures TagBytes(PackTag(b)) == b
  {
  }

  /** The tag of an encoding is its longest prefix without a zero byte; encoding 0 gives "". */
  lemma EncodingTagStopsAtZero(cm: CharMapRec)
    ensures var tag := EncodingTag(cm);
      && |tag| <= 4
      && tag == TagBytes(cm.encoding)[..|tag|]
      && 0 !in tag
      && (|tag| < 4 ==> TagBytes(cm.encoding)[|tag|] == 0)
      && (cm.encoding == 0 ==> tag == [])
  {
    var tag := EncodingTag(cm);
    if cm.encoding == 0 {
      assert TagBytes(cm.encoding)[0] == 0;
    }
  }

  /** Four nonzero characters packed big-endian come back unchanged. */
  lemma {:induction false} EncodingTagRoundTrip(b: seq<byte>, platformId: int, encodingId: int)
    requires |b| == 4 && 0 !in b
    ensures EncodingTag(CharMapRec(PackTag(b), platformId, encodingId)) == b
  {
    TagBytesRoundTrip(0, b);
    var raw := TagBytes(PackTag(b));
    assert raw == b;
    assert raw[0] != 0 && raw[1] != 0 && raw[2] != 0 && raw[3] != 0;
    assert CString(raw[3..]) == [raw[3]] + CString(raw[4..]);
    assert CString(raw[2..]) == [raw[2]] + CString(raw[2..][1..]);
    assert CString(raw[1..]) == [raw[1]] + CString(raw[1..][1..]);
    assert CString(raw) == [raw[0]] + CString(raw[1..]);
    assert raw[3..][1..] == raw[4..] == [];
    assert raw[2..][1..] == raw[3..];
    assert raw[1..][1..] == raw[2..];
  }

  // ---------------------------------------------------------------------
  // Gray bitmap to RGBA

  /** What `ImageData` receives: the pixel bytes, a width and a height. */
  datatype ImageData = ImageData(data: seq<byte>, width: int, height: int)

  /** `rows * pitch` as the source computes it: in `unsigned int`, so modulo 2^32. */
  function PixelCount(bm: Bitmap): nat {
    (bm.rows * bm.pitch) % 0x1_0000_0000
  }

  /** Each gray value becomes a black pixel with that value as its alpha. */
  function GrayToRgba(gray: seq<byte>): seq<byte> {
    if gray == [] then [] else [0, 0, 0, gray[0]] + GrayToRgba(gray[1..])
  }

  lemma {:induction false} GrayToRgbaAppend(a: seq<byte>, b: seq<byte>)
    ensures GrayToRgba(a + b) == GrayToRgba(a) + GrayToRgba(b)
  {
    if a == [] {
      assert a + b == b;
    } else {
      GrayToRgbaAppend(a[1..], b);
      assert (a + b)[1..] == a[1..] + b;
    }
  }

  /** Four bytes per pixel: channels 0-2 are 0 and channel 3 is the gray value. */
  lemma {:induction false} GrayToRgbaPixels(gray: seq<byte>)
    ensures |GrayToRgba(gray)| == 4 * |gray|
    ensures forall i :: 0 <= i < |gray| ==> GrayToRgba(gray)[4 * i .. 4 * i + 4] == [0, 0, 0, gray[i]]
  {
    if gray != [] {
      GrayToRgbaPixels(gray[1..]);
      var rest := GrayToRgba(gray[1..]);
      forall i | 0 <= i < |gray|
        ensures GrayToRgba(gray)[4 * i .. 4 * i + 4] == [0, 0, 0, gray[i]]
      {
        if i > 0 {
          assert GrayToRgba(gray)[4 * i .. 4 * i + 4] == rest[4 * (i - 1) .. 4 * (i - 1) + 4];
          assert gray[i] == gray[1..][i - 1];
        }
      }
    }
  }

  /**
   * `ImageData_Getter`: null for an empty bitmap; otherwise the RGBA
   * expansion of the first `rows * pitch` bytes, `pitch` wide and `rows` high.
   */
  method ImageDataOf(bm: Bitmap) returns (img: Option<ImageData>)
    requires PixelCount(bm) <= |bm.buffer|
    requires 4 * PixelCount(bm) < 0x1_0000_0000
    ensures img.None? <==> PixelCount(bm) == 0
    ensures img.Some? ==>
      img.value == ImageData(GrayToRgba(bm.buffer[..PixelCount(bm)]), bm.pitch, bm.rows)
  {
    var size := PixelCount(bm);
    if size == 0 {
      return None;
    }
    var rgba := new byte[4 * size];
    for i := 0 to size
      invariant rgba[..4 * i] == GrayToRgba(bm.buffer[..i])
    {
      rgba[4 * i + 0] := 0;
      rgba[4 * i + 1] := 0;
      rgba[4 * i + 2] := 0;
      rgba[4 * i + 3] := bm.buffer[i];
      GrayToRgbaAppend(bm.buffer[..i], [bm.buffer[i]]);
      assert bm.buffer[..i + 1] == bm.buffer[..i] + [bm.buffer[i]];
      assert rgba[..4 * (i + 1)] == rgba[..4 * i] + [0, 0, 0, bm.buffer[i]];
    }
    assert rgba[..] == rgba[..4 * size];
    return Some(ImageData(rgba[..], bm.pitch, bm.rows));
  }

  // ---------------------------------------------------------------------
  // Array copy-outs

  /** The first `count` entries of a C array, in order (none when `count` is not positive). */
  method CopyOut<T>(items: seq<T>, count: int) returns (vec: seq<T>)
    requires count <= |items|
    ensures |vec| == if count < 0 then 0 else count
    ensures forall k :: 0 <= k < |vec| ==> vec[k] == items[k]
  {
    vec := [];
    var k := 0;
    while k < count
      invariant 0 <= k <= |items|
      invariant k <= count || k == 0
      invariant vec == items[..k]
    {
      vec := vec + [items[k]];
      k := k + 1;
    }
  }

  /** `CharMaps_Getter`: the face's first `num_charmaps` charmaps. */
  method CharMapsOf(face: FaceRec) returns (vec: seq<CharMapRec>)
    requires face.numCharmaps <= |face.charmaps|
    ensures vec == face.charmaps[..if face.numCharmaps < 0 then 0 else face.numCharmaps]
  {
    vec := CopyOut(face.charmaps, face.numCharmaps);
  }

  /** `AvailableSizes_Getter`: the face's first `num_fixed_sizes` strike sizes. */
  method AvailableSizesOf(face: FaceRec) returns (vec: seq<BitmapSize>)
    requires face.numFixedSizes <= |face.availableSizes|
    ensures vec == face.availableSizes[..if face.numFixedSizes < 0 then 0 else face.numFixedSizes]
  {
    vec := CopyOut(face.availableSizes, face.numFixedSizes);
  }
}
