# freetype-wasm binding core, modelled in Dafny

freetype-wasm exposes the FreeType C API to JavaScript. The logic it adds on top of FreeType sits in `src/ft.cpp`, and this project models that logic:

- **The face registry.** Three process-wide globals: `face_map` (family name → style name → `FT_Face`), `face_ptrs` (family name → the font byte buffers that family owns) and `current_face`. `LoadFontFromBytes`, `UnloadFont` and `SetFont` change them. Here they are the fields `faceMap`, `facePtrs` and `current` of the class `Binding.FontState`. `FaceTable` specifies a whole load as a pure recursive function (`FaceTable.LoadFrom`, `FaceTable.Load`), and the lemmas there state what a load does.
- **Charmap selection by index.** `SetCharmapByIndex` is a bounded linear search over `num_charmaps`.
- **The charmap walk.** The loop of `LoadChars` and `LoadCharsFrom` hands each character code and glyph index to the host callback. It stops when the callback's answer is exactly the JavaScript value `false` (`isFalse()`; `undefined`, `0` and `null` keep it going) or when FreeType has no next character. The `CharWalk` module holds it.
- **Marshalling.** The encoding tag as a NUL-terminated string, the gray bitmap as RGBA image data, and the copies of the charmap and fixed-size arrays. The `Marshal` module holds these.

FreeType is not modelled. Each FreeType call is a function-typed parameter of the operation that makes it:
- `open` is `FT_New_Memory_Face`.
- `setCharmap` is `FT_Set_Charmap`.
- `first` and `next` are `FT_Get_First_Char` and `FT_Get_Next_Char`.
- `cb` is the host callback.

Font buffers are opaque identities (`BufId`). A face handle is the buffer, the face index and the record FreeType filled in.

The model keeps the code's behaviour as written in these cases:
- A face that fails to open at index i > 0 stops the load, and so does a (family, style) pair that is already taken. Faces 0 .. i-1 stay registered.
- In that case the buffer is freed, yet it stays listed under the family of face 0 (`FaceTable.LoadPartialFailureKeepsBuffer`).
- If the probe reports a non-positive face count, the load returns nothing and does not free the buffer.
- The buffer is listed only under the family of face 0. In a collection whose later faces belong to another family, those faces are registered on the buffer while their family owns no buffer, so `UnloadFont` of face 0's family frees memory they still use (`FaceTable.LoadBufferOwnedByFirstFamily`, `FaceTable.SharedBufferWitness`).

`rows * pitch` in `ImageData_Getter` is computed in `unsigned int` arithmetic, as the code does.

## Model

| member | source | states |
|---|---|---|
| `FaceTable.Load` | src/ft.cpp:39-99 | the definition of a whole load (probe at index -1, then the face loop); pinned down by `LoadReturnsFacesInOrder`, `LoadRecordsBufferOnce`, `LoadKeepsExisting`, `LoadAddsOnlyReturned`, `LoadPreservesWellKeyed` and `UnloadUndoesLoad` |
| `FaceTable.LoadFrom` | src/ft.cpp:63-96 | the definition of the face loop from index i on; pinned down by the `LoadFrom…` lemmas below and implemented by `Binding.FontState.RegisterFaces` |
| `FaceTable.Register` | src/ft.cpp:90 | the pair (family, style) of the face maps to that face; every other pair is registered exactly as before; the family set gains only the face's family |
| `FaceTable.AppendBuf` | src/ft.cpp:83-86 | the family's buffer list becomes the old list (empty if absent) followed by the buffer; every other family is unchanged |
| `FaceTable.LoadFromKeeps` | src/ft.cpp:73-90 | from any face index on, the loop never changes or removes an existing entry |
| `FaceTable.LoadFromPrefix` | src/ft.cpp:63-97 | the records already returned stay a prefix of the result, and at most n records come back |
| `FaceTable.LoadFromOpened` | src/ft.cpp:65-92 | record j of the result is the face FreeType opens at index j, and its pair was not registered before the load |
| `FaceTable.LoadFromRegisters` | src/ft.cpp:90-92 | every returned record j is registered under its own family and style with the handle for index j |
| `FaceTable.LoadFromReleased` | src/ft.cpp:63-80 | the buffer is released exactly when fewer than n faces were loaded; the face where the loop stopped failed to open or had a taken pair |
| `FaceTable.LoadFromPtrs` | src/ft.cpp:82-86 | only face 0 appends the buffer, under its own family; the buffer table is otherwise untouched |
| `FaceTable.LoadFromUntouched` | src/ft.cpp:85-90 | a family that no loaded face carries is left exactly as it was |
| `FaceTable.LoadFromWellKeyed` | src/ft.cpp:82-90 | the loop keeps every handle under its own names and every buffer owner a registered family |
| `FaceTable.LoadFromOnlyNew` | src/ft.cpp:90 | every entry after the loop is an old entry or the entry of a returned record |
| `FaceTable.ProbeFailureChangesNothing` | src/ft.cpp:51-58 | a failed probe at face index -1 returns no records, releases the buffer and leaves both tables unchanged |
| `FaceTable.EmptyLoadChangesNothing` | src/ft.cpp:51-80 | a load that returns no record leaves both tables unchanged |
| `FaceTable.LoadKeepsExisting` | src/ft.cpp:73-80 | no load changes or removes an already registered face |
| `FaceTable.LoadReturnsFacesInOrder` | src/ft.cpp:63-98 | the returned records are faces 0, 1, … in order, each new and registered under its own names with its own handle; the buffer is released exactly when the probe failed or fewer than num_faces came back, and then the stopping face failed to open or its pair was taken |
| `FaceTable.LoadRecordsBufferOnce` | src/ft.cpp:82-86 | the buffer is appended once, under the family of face 0, if and only if at least one face was loaded |
| `FaceTable.DuplicateStopsLoad` | src/ft.cpp:73-80 | a face whose pair is already registered stops the load before it, the buffer is released, and the existing entry keeps its handle |
| `FaceTable.FullLoad` | src/ft.cpp:63-98 | when all num_faces faces open and their pairs are new and distinct, the load returns all of them in face-index order, registers each under its own pair, appends the buffer once under face 0's family, and keeps the buffer |
| `FaceTable.LoadFromFresh` | src/ft.cpp:63-96 | when the remaining faces all open and their pairs are new and distinct, the loop runs to the end and does not release the buffer |
| `FaceTable.LoadAddsOnlyReturned` | src/ft.cpp:63-96 | after a load every registered pair was registered before or belongs to one of the returned records, so the load adds nothing else |
| `FaceTable.LoadBufferOwnedByFirstFamily` | src/ft.cpp:82-90 | a returned face of another family than face 0, whose family owned no buffer, is registered on the buffer while its family owns none; the buffer is listed under face 0's family |
| `FaceTable.SharedBufferWitness` | src/ft.cpp:63-96 | loading a two-face collection of families "A" and "B" into empty tables returns both faces, lists the buffer only under "A", and registers ("B", "R") on the buffer |
| `FaceTable.LoadPartialFailureKeepsBuffer` | src/ft.cpp:65-86 | a load that stops after face 0 was loaded frees the buffer, yet the buffer stays listed under face 0's family and face 0 stays registered on it |
| `FaceTable.LoadPreservesWellKeyed` | src/ft.cpp:82-90 | a load keeps every handle under its own names and every buffer owner a registered family |
| `FaceTable.UnloadUndoesLoad` | src/ft.cpp:112-126 | unloading the one new family a load added gives back both tables exactly as they were before the load |
| `Binding.FontState.constructor` | src/ft.cpp:11-19 | both tables start empty and no face is active |
| `Binding.FontState.LoadFontFromBytes` | src/ft.cpp:39-99 | the new tables, the records and the release flag are those of `FaceTable.Load`; the active face is unchanged; old entries are kept; every entry is an old one or that of a returned record; record j is face j, registered under its pair; the buffer is appended at most once; the registry invariant holds |
| `Binding.FontState.RegisterFaces` | src/ft.cpp:62-96 | the face loop leaves the tables, records and release flag that `FaceTable.LoadFrom` gives from index 0 |
| `Binding.FontState.UnloadFont` | src/ft.cpp:101-127 | the family is gone from both tables and every other family is unchanged; the active face is cleared exactly when it belongs to the family; its faces are closed and its buffers freed; the registry invariant holds |
| `Binding.FontState.SetFont` | src/ft.cpp:129-137 | the registered face (family, style) becomes active, and its record, which carries that family and style, is returned |
| `Binding.FontState.SetCharmapByIndex` | src/ft.cpp:201-225 | succeeds exactly when a face is active, 0 <= index < num_charmaps, and FreeType accepts charmap number index |
| `Binding.FontState.LoadChars` | src/ft.cpp:273-299 | with no active face the callback is never called; otherwise the calls are the walk from the face's first character |
| `Binding.FontState.LoadCharsFrom` | src/ft.cpp:244-271 | with no active face the callback is never called; otherwise the calls are the walk from the first character after the given code |
| `CharWalk.Walk` | src/ft.cpp:253-270 | the definition of the callback calls of the walk (the same loop is at src/ft.cpp:281-298); pinned down by `WalkFollowsSuccessor`, `WalkStopsForAReason` and `WalkIncreasing`, and implemented by `RunWalk` |
| `CharWalk.RunWalk` | src/ft.cpp:253-270 | the loop hands the callback exactly the steps of the walk specification |
| `CharWalk.WalkFollowsSuccessor` | src/ft.cpp:253-270 | the walk starts at the first step, calls the callback only for characters that have a glyph, follows FreeType's successor, and every call except the last was answered true |
| `CharWalk.WalkStopsForAReason` | src/ft.cpp:263-269 | the walk ends because the callback answered false on the last character or no next character exists |
| `CharWalk.WalkIncreasing` | src/ft.cpp:269 | the callback sees strictly increasing character codes, so none twice |
| `Marshal.TagBytes` | src/ft.cpp:336-341 | the definition of the four tag bytes; pinned down by `TagBytesAreBigEndian` and `TagBytesRoundTrip` |
| `Marshal.EncodingTag` | src/ft.cpp:333-343 | the definition of the encoding tag string; pinned down by `EncodingTagStopsAtZero` and `EncodingTagRoundTrip` |
| `Marshal.CString` | src/ft.cpp:342 | the string is the longest prefix of the bytes that holds no zero byte |
| `Marshal.TagBytesAreBigEndian` | src/ft.cpp:336-341 | character k of the tag bytes is `(encoding >> 8*(3-k)) & 0xff`, most significant byte first |
| `Marshal.TagBytesRoundTrip` | src/ft.cpp:335-341 | splitting an encoding into its four bytes and packing them big-endian are inverse to each other |
| `Marshal.EncodingTagStopsAtZero` | src/ft.cpp:333-343 | the tag is the prefix of the four bytes before the first zero byte, at most 4 long; encoding 0 gives the empty string |
| `Marshal.EncodingTagRoundTrip` | src/ft.cpp:333-343 | four nonzero characters packed big-endian decode to the same four characters |
| `Marshal.GrayToRgba` | src/ft.cpp:388-397 | the definition of the RGBA expansion; pinned down by `GrayToRgbaPixels` and `GrayToRgbaAppend`, and implemented by the loop of `ImageDataOf` |
| `Marshal.PixelCount` | src/ft.cpp:380 | the definition of rows*pitch in unsigned 32-bit arithmetic; `ImageDataOf` returns null exactly when it is 0 |
| `Marshal.GrayToRgbaAppend` | src/ft.cpp:391-397 | the RGBA expansion of a concatenation is the concatenation of the expansions |
| `Marshal.GrayToRgbaPixels` | src/ft.cpp:388-397 | the expansion is four times as long; pixel i has channels 0-2 equal to 0 and channel 3 equal to gray value i |
| `Marshal.ImageDataOf` | src/ft.cpp:375-404 | null exactly when rows*pitch (unsigned) is 0; otherwise the RGBA expansion of the first rows*pitch bytes, with width pitch and height rows |
| `Marshal.CopyOut` | src/ft.cpp:357-361 | the first count entries in order, none when count is not positive |
| `Marshal.CharMapsOf` | src/ft.cpp:355-363 | the face's first num_charmaps charmaps, in order |
| `Marshal.AvailableSizesOf` | src/ft.cpp:365-373 | the face's first num_fixed_sizes strike sizes, in order |

## Left out

- FreeType itself: font parsing, size setting, charmap selection, glyph loading, rendering and kerning. These are foreign calls, so they appear only as function parameters. The model assumes these things about FreeType:
  - `FT_Get_Next_Char` returns increasing codes (`FreeType.Increasing`).
  - The `charmaps` and `available_sizes` arrays hold at least `num_charmaps` and `num_fixed_sizes` entries (the requires of `Binding.FontState.SetCharmapByIndex`, `Marshal.CharMapsOf` and `Marshal.AvailableSizesOf`).
  - A face always has a family name and a style name (`FreeType.FaceRec`).
- `malloc`, `memcpy` and `free` of the font bytes (src/ft.cpp:46-48). Buffers are opaque ids. A freed buffer is reported through the `released` and `freed` results and is not tracked any further.
- `FT_Done_Face` on the probe face (src/ft.cpp:60) and on a duplicate face (src/ft.cpp:77). These are FreeType calls with no effect on the tables.
- `Init` and `Cleanup` (src/ft.cpp:21-37). They only create and destroy the FreeType library handle.
- `SetCharSize` and `SetPixelSize` (src/ft.cpp:139-181). They only delegate to FreeType, and with no active face they dereference a null pointer.
- `SetCharmap` (src/ft.cpp:183-199). It only checks for an active face and delegates to `FT_Select_Charmap`.
- Faces whose `family_name` or `style_name` is null, which FreeType allows (for example for fonts embedded in PDF files). The code then builds a `std::string` from a null pointer (src/ft.cpp:74, 85, 90), which is undefined behaviour. In the model, names are always strings.
- `GetKerning` (src/ft.cpp:301-317). It only delegates to FreeType and returns an uninitialised vector on error.
- The diagnostics written to stdout and stderr.
- The Emscripten bindings, the value-object field lists, the exported constants and the `std::vector` wire conversion (src/ft.cpp:406-613). Also the identity getters `GlyphFormat_Getter`, `Size_Getter`, `StyleName_Getter` and `FamilyName_Getter`.
- The host's decoding of the tag bytes into a JavaScript string. `Marshal.EncodingTag` yields the bytes of the `std::string`.
- example/example.js is not part of this model. It is a browser demo.
- Binding.FontState.SetFont: requires the (family, style) pair to be registered. For a missing pair the code inserts a null entry with `operator[]` and then dereferences it. This precondition also keeps null entries out of the registry.
- Binding.FontState.UnloadFont: returns the closed faces as a set. The style-name order in which `std::map` iteration closes them is not modelled.
- Binding.FontState.LoadChars: models only runs where `FT_Load_Char` succeeds. On an error the loop `continue`s without advancing and never ends. The glyph slot and the load flags passed along are not modelled. The callback is a pure function of the character code and the glyph index, so the host's side effects are not modelled.
- Binding.FontState.LoadCharsFrom: the same restrictions as `LoadChars`.
- Marshal.ImageDataOf: requires the buffer to hold rows*pitch bytes and 4*rows*pitch to fit in 32 bits. Otherwise the code reads or writes out of bounds, which is undefined behaviour. Only the gray pixel mode is modelled, as in the code.
