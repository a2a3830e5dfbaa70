/**
 * The FreeType records that the binding reads, reduced to the fields it
 * uses, and the identities it keeps.  FreeType itself is not modelled: its
 * functions appear as function-typed parameters ("oracles") of the
 * operations that call them.
 */
module FreeType {
  import opened Wrappers

  /** An 8-bit byte (`unsigned char` / `FT_Byte`). */
  type byte = bv8

  /** `FT_ULong` on a 32-bit target: a character code. */
  type Charcode = c: int | 0 <= c < 0x1_0000_0000

  /** `unsigned int` and `int` of the 32-bit target. */
  type uint32 = x: int | 0 <= x < 0x1_0000_0000
  type int32 = x: int | -0x8000_0000 <= x < 0x8000_0000

  /** An opaque identity for one font byte buffer handed to FreeType. */
  type BufId = nat

  /** `FT_CharMapRec`: the encoding tag and the platform/encoding ids. */
  datatype CharMapRec = CharMapRec(encoding: bv32, platformId: int, encodingId: int)

  /** `FT_Bitmap_Size`: one of the fixed strike sizes of a bitmap font. */
  datatype BitmapSize = BitmapSize(width: int, height: int, size: int, xPpem: int, yPpem: int)

  /**
   * `FT_FaceRec`, as far as the binding reads it.  The C arrays `charmaps`
   * and `available_sizes` hold at least `num_charmaps` and
   * `num_fixed_sizes` entries; here they are sequences with separate counts.
   */
  datatype FaceRec = FaceRec(
    family: string,
    style: string,
    numFaces: int,
    charmaps: seq<CharMapRec>,
    numCharmaps: int,
    availableSizes: seq<BitmapSize>,
    numFixedSizes: int)

  /**
   * An `FT_Face` handle: the face opened from buffer `buf` at face index
   * `index`, with the record FreeType filled in for it.
   */
  datatype Face = Face(buf: BufId, index: int, rec: FaceRec)

  /** `FT_Bitmap`: `rows` is unsigned, `pitch` is signed, `buffer` the pixels. */
  datatype Bitmap = Bitmap(rows: uint32, width: uint32, pitch: int32, buffer: seq<byte>)

  /** What `FT_Get_First_Char` / `FT_Get_Next_Char` return: a code and its glyph index (0 = none). */
  datatype CharStep = CharStep(code: Charcode, gindex: nat)

  /** `FT_New_Memory_Face(library, buf, size, index)`: the opened face's record, or None on error. */
  type Opener = (BufId, int) -> Option<FaceRec>

  /** `FT_Get_Next_Char(face, code)`. */
  type Successor = (Face, Charcode) -> CharStep

  /**
   * FreeType returns character codes in increasing order: whenever a next
   * character exists (glyph index not 0) its code is larger than the one
   * asked about.
   */
  ghost predicate Increasing(next: Successor) {
    forall face, c :: next(face, c).gindex != 0 ==> next(face, c).code > c
  }
}
