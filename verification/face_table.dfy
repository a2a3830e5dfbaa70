/**
 * The two registries of src/ft.cpp as values, and what `LoadFontFromBytes`
 * does to them:
 *   face_map:  family name -> style name -> face handle
 *   face_ptrs: family name -> the font buffers that family owns
 */
module FaceTable {
  import opened Wrappers
  import opened FreeType

  type FaceMap = map<string, map<string, Face>>
  type PtrMap = map<string, seq<BufId>>

  predicate Registered(fm: FaceMap, family: string, style: string) {
    family in fm && style in fm[family]
  }

  function At(fm: FaceMap, family: string, style: string): Face
    requires Registered(fm, family, style)
  {
    fm[family][style]
  }

  /** Every handle sits under its own family and style name. */
  ghost predicate WellKeyed(fm: FaceMap) {
    forall family, style :: Registered(fm, family, style) ==>
      At(fm, family, style).rec.family == family && At(fm, family, style).rec.style == style
  }

  /** Every entry of `fm` is still in `fm'`, under the same names and with the same handle. */
  ghost predicate Extends(fm: FaceMap, fm': FaceMap) {
    forall family, style :: Registered(fm, family, style) ==>
      Registered(fm', family, style) && At(fm', family, style) == At(fm, family, style)
  }

  /** `face_map[family][style] = face`, creating the inner map when the family is new. */
  function Register(fm: FaceMap, face: Face): (fm': FaceMap)
    ensures Registered(fm', face.rec.family, face.rec.style)
    ensures At(fm', face.rec.family, face.rec.style) == face
    ensures forall family, style :: (family, style) != (face.rec.family, face.rec.style) ==>
      (Registered(fm', family, style) <==> Registered(fm, family, style)) &&
      (Registered(fm, family, style) ==> At(fm', family, style) == At(fm, family, style))
    ensures fm'.Keys == fm.Keys + {face.rec.family}
  {
    var inner := if face.rec.family in fm then fm[face.rec.family] else map[];
    fm[face.rec.family := inner[face.rec.style := face]]
  }

  /** `face_ptrs[family].push_back(buf)`, creating an empty list when the family is new. */
  function AppendBuf(pm: PtrMap, family: string, buf: BufId): (pm': PtrMap)
    ensures family in pm' && pm'[family] == (if family in pm then pm[family] else []) + [buf]
    ensures forall g :: g != family ==> (g in pm' <==> g in pm) && (g in pm ==> pm'[g] == pm[g])
  {
    pm[family := (if family in pm then pm[family] else []) + [buf]]
  }

  /**
   * The outcome of one load: the new registries, the records returned (in
   * face-index order) and whether the buffer was released with `free`.
   */
  datatype LoadResult = LoadResult(faceMap: FaceMap, facePtrs: PtrMap, loaded: seq<FaceRec>, released: bool)

  /**
   * The loop of `LoadFontFromBytes` from face index `i` on, out of `n`
   * faces, with the records returned so far in `loaded`.  Face `i` that
   * FreeType cannot open, or whose (family, style) pair is taken, ends the
   * load with the buffer released; faces registered before it stay.
   */
  function LoadFrom(fm: FaceMap, pm: PtrMap, buf: BufId, open: Opener, i: nat, n: int, loaded: seq<FaceRec>): LoadResult
    decreases n - i
  {
    if i >= n then LoadResult(fm, pm, loaded, false)
    else match open(buf, i)
      case None => LoadResult(fm, pm, loaded, true)
      case Some(rec) =>
        if Registered(fm, rec.family, rec.style) then LoadResult(fm, pm, loaded, true)
        else
          var pm' := if i == 0 then AppendBuf(pm, rec.family, buf) else pm;
          LoadFrom(Register(fm, Face(buf, i, rec)), pm', buf, open, i + 1, n, loaded + [rec])
  }

  /** `LoadFontFromBytes`: probe the face count at index -1, then load faces 0 .. num_faces-1. */
  function Load(fm: FaceMap, pm: PtrMap, buf: BufId, open: Opener): LoadResult {
    match open(buf, -1)
    case None => LoadResult(fm, pm, [], true)
    case Some(probe) => LoadFrom(fm, pm, buf, open, 0, probe.numFaces, [])
  }

  /** The face count the probe reports, or 0 when the probe fails. */
  function ProbedCount(buf: BufId, open: Opener): int {
    match open(buf, -1)
    case None => 0
    case Some(probe) => probe.numFaces
  }

  // ---------------------------------------------------------------------
  // Lemmas about the loop from face index i on

  /** From any face index on, the loop never changes or removes an entry. */
  lemma {:induction false} LoadFromKeeps(fm: FaceMap, pm: PtrMap, buf: BufId, open: Opener, i: nat, n: int, loaded: seq<FaceRec>)
    ensures Extends(fm, LoadFrom(fm, pm, buf, open, i, n, loaded).faceMap)
    decreases n - i
  {
    if i < n {
      match open(buf, i)
      case None =>
      case Some(rec) =>
        if !Registered(fm, rec.family, rec.style) {
          var pm' := if i == 0 then AppendBuf(pm, rec.family, buf) else pm;
          LoadFromKeeps(Register(fm, Face(buf, i, rec)), pm', buf, open, i + 1, n, loaded + [rec]);
        }
    }
  }

  /** The records returned so far are kept as a prefix, and no more than `n` come back. */
  lemma {:induction false} LoadFromPrefix(fm: FaceMap, pm: PtrMap, buf: BufId, open: Opener, i: nat, n: int, loaded: seq<FaceRec>)
    requires |loaded| == i
    ensures var r := LoadFrom(fm, pm, buf, open, i, n, loaded);
      && i <= |r.loaded| && r.loaded[..i] == loaded
      && (|r.loaded| == i || |r.loaded| <= n)
    decreases n - i
  {
    if i < n {
      match open(buf, i)
      case None =>
      case Some(rec) =>
        if !Registered(fm, rec.family, rec.style) {
          var pm' := if i == 0 then AppendBuf(pm, rec.family, buf) else pm;
          LoadFromPrefix(Register(fm, Face(buf, i, rec)), pm', buf, open, i + 1, n, loaded + [rec]);
          var r := LoadFrom(Register(fm, Face(buf, i, rec)), pm', buf, open, i + 1, n, loaded + [rec]);
          assert r.loaded[..i] == r.loaded[..i + 1][..i];
        }
    }
  }

  /** Face `i` that is loaded is the face FreeType opens at index `i`, and it was not registered before. */
  lemma {:induction false} LoadFromOpened(fm: FaceMap, pm: PtrMap, buf: BufId, open: Opener, i: nat, n: int, loaded: seq<FaceRec>)
    requires |loaded| == i
    ensures var r := LoadFrom(fm, pm, buf, open, i, n, loaded);
      forall j :: i <= j < |r.loaded| ==>
        open(buf, j) == Some(r.loaded[j]) && !Registered(fm, r.loaded[j].family, r.loaded[j].style)
    decreases n - i
  {
    if i < n {
      match open(buf, i)
      case None =>
      case Some(rec) =>
        if !Registered(fm, rec.family, rec.style) {
          var fm' := Register(fm, Face(buf, i, rec));
          var pm' := if i == 0 then AppendBuf(pm, rec.family, buf) else pm;
          LoadFromOpened(fm', pm', buf, open, i + 1, n, loaded + [rec]);
          LoadFromPrefix(fm', pm', buf, open, i + 1, n, loaded + [rec]);
          var r := LoadFrom(fm', pm', buf, open, i + 1, n, loaded + [rec]);
          assert r.loaded[i] == rec by { assert r.loaded[..i + 1][i] == rec; }
          forall j | i <= j < |r.loaded|
            ensures open(buf, j) == Some(r.loaded[j]) && !Registered(fm, r.loaded[j].family, r.loaded[j].style)
          {
            if j > i {
              assert !Registered(fm', r.loaded[j].family, r.loaded[j].style);
            }
          }
        }
    }
  }

  /** Every loaded face is registered under its own names with the handle for its index. */
  lemma {:induction false} LoadFromRegisters(fm: FaceMap, pm: PtrMap, buf: BufId, open: Opener, i: nat, n: int, loaded: seq<FaceRec>)
    requires |loaded| == i
    ensures var r := LoadFrom(fm, pm, buf, open, i, n, loaded);
      forall j :: i <= j < |r.loaded| ==>
        Registered(r.faceMap, r.loaded[j].family, r.loaded[j].style) &&
        At(r.faceMap, r.loaded[j].family, r.loaded[j].style) == Face(buf, j, r.loaded[j])
    decreases n - i
  {
    if i < n {
      match open(buf, i)
      case None =>
      case Some(rec) =>
        if !Registered(fm, rec.family, rec.style) {
          var face := Face(buf, i, rec);
          var fm' := Register(fm, face);
          var pm' := if i == 0 then AppendBuf(pm, rec.family, buf) else pm;
          LoadFromRegisters(fm', pm', buf, open, i + 1, n, loaded + [rec]);
          LoadFromPrefix(fm', pm', buf, open, i + 1, n, loaded + [rec]);
          LoadFromKeeps(fm', pm', buf, open, i + 1, n, loaded + [rec]);
          var r := LoadFrom(fm', pm', buf, open, i + 1, n, loaded + [rec]);
          assert r.loaded[i] == rec by { assert r.loaded[..i + 1][i] == rec; }
          assert Registered(fm', rec.family, rec.style) && At(fm', rec.family, rec.style) == face;
          forall j | i <= j < |r.loaded|
            ensures Registered(r.faceMap, r.loaded[j].family, r.loaded[j].style)
            ensures At(r.faceMap, r.loaded[j].family, r.loaded[j].style) == Face(buf, j, r.loaded[j])
          {
            if j == i {
              assert Extends(fm', r.faceMap);
            }
          }
        }
    }
  }

  /** The load stops exactly when a face cannot be opened or its pair is taken. */
  lemma {:induction false} LoadFromReleased(fm: FaceMap, pm: PtrMap, buf: BufId, open: Opener, i: nat, n: int, loaded: seq<FaceRec>)
    requires |loaded| == i
    ensures var r := LoadFrom(fm, pm, buf, open, i, n, loaded);
      && (r.released <==> |r.loaded| < n)
      && (r.released ==> (open(buf, |r.loaded|).None? ||
            Registered(r.faceMap, open(buf, |r.loaded|).value.family, open(buf, |r.loaded|).value.style)))
    decreases n - i
  {
    if i < n {
      match open(buf, i)
      case None =>
      case Some(rec) =>
        if !Registered(fm, rec.family, rec.style) {
          var pm' := if i == 0 then AppendBuf(pm, rec.family, buf) else pm;
          LoadFromReleased(Register(fm, Face(buf, i, rec)), pm', buf, open, i + 1, n, loaded + [rec]);
          LoadFromPrefix(Register(fm, Face(buf, i, rec)), pm', buf, open, i + 1, n, loaded + [rec]);
        }
    }
  }

  /** Only face 0 records the buffer, under its own family. */
  lemma {:induction false} LoadFromPtrs(fm: FaceMap, pm: PtrMap, buf: BufId, open: Opener, i: nat, n: int, loaded: seq<FaceRec>)
    requires |loaded| == i
    ensures var r := LoadFrom(fm, pm, buf, open, i, n, loaded);
      r.facePtrs == if i == 0 && |r.loaded| > 0 then AppendBuf(pm, r.loaded[0].family, buf) else pm
    decreases n - i
  {
    if i < n {
      match open(buf, i)
      case None =>
      case Some(rec) =>
        if !Registered(fm, rec.family, rec.style) {
          var fm' := Register(fm, Face(buf, i, rec));
          if i == 0 {
            var pm' := AppendBuf(pm, rec.family, buf);
            LoadFromPtrs(fm', pm', buf, open, 1, n, loaded + [rec]);
            LoadFromPrefix(fm', pm', buf, open, 1, n, loaded + [rec]);
            var r := LoadFrom(fm', pm', buf, open, 1, n, loaded + [rec]);
            assert r.loaded[0] == rec by { assert r.loaded[..1][0] == rec; }
            assert r.facePtrs == pm';
          } else {
            LoadFromPtrs(fm', pm, buf, open, i + 1, n, loaded + [rec]);
          }
        }
    }
  }

  /** A family that no newly loaded face carries is left exactly as it was. */
  lemma {:induction false} LoadFromUntouched(fm: FaceMap, pm: PtrMap, buf: BufId, open: Opener, i: nat, n: int, loaded: seq<FaceRec>, family: string)
    requires |loaded| == i
    ensures var r := LoadFrom(fm, pm, buf, open, i, n, loaded);
      (forall j :: i <= j < |r.loaded| ==> r.loaded[j].family != family) ==>
        && (family in r.faceMap <==> family in fm)
        && (family in fm ==> r.faceMap[family] == fm[family])
    decreases n - i
  {
    if i < n {
      match open(buf, i)
      case None =>
      case Some(rec) =>
        if !Registered(fm, rec.family, rec.style) {
          var pm' := if i == 0 then AppendBuf(pm, rec.family, buf) else pm;
          var fm' := Register(fm, Face(buf, i, rec));
          LoadFromUntouched(fm', pm', buf, open, i + 1, n, loaded + [rec], family);
          LoadFromPrefix(fm', pm', buf, open, i + 1, n, loaded + [rec]);
          var r := LoadFrom(fm', pm', buf, open, i + 1, n, loaded + [rec]);
          if forall j :: i <= j < |r.loaded| ==> r.loaded[j].family != family {
            assert r.loaded[i] == rec by { assert r.loaded[..i + 1][i] == rec; }
            assert rec.family != family;
          }
        }
    }
  }

  lemma {:induction false} LoadFromWellKeyed(fm: FaceMap, pm: PtrMap, buf: BufId, open: Opener, i: nat, n: int, loaded: seq<FaceRec>)
    requires WellKeyed(fm) && pm.Keys <= fm.Keys
    ensures var r := LoadFrom(fm, pm, buf, open, i, n, loaded);
      WellKeyed(r.faceMap) && r.facePtrs.Keys <= r.faceMap.Keys
    decreases n - i
  {
    if i < n {
      match open(buf, i)
      case None =>
      case Some(rec) =>
        if !Registered(fm, rec.family, rec.style) {
          var pm' := if i == 0 then AppendBuf(pm, rec.family, buf) else pm;
          var fm' := Register(fm, Face(buf, i, rec));
          assert WellKeyed(fm') by {
            forall family, style | Registered(fm', family, style)
              ensures At(fm', family, style).rec.family == family && At(fm', family, style).rec.style == style
            {
              if (family, style) != (rec.family, rec.style) {
                assert Registered(fm, family, style);
              }
            }
          }
          LoadFromWellKeyed(fm', pm', buf, open, i + 1, n, loaded + [rec]);
        }
    }
  }

  // ---------------------------------------------------------------------
  // Properties of a whole load

  /** A probe that fails leaves both registries alone, returns nothing and releases the buffer. */
  lemma ProbeFailureChangesNothing(fm: FaceMap, pm: PtrMap, buf: BufId, open: Opener)
    requires open(buf, -1).None?
    ensures Load(fm, pm, buf, open) == LoadResult(fm, pm, [], true)
  {
  }

  /** A load that returns no record changes neither registry. */
  lemma {:induction false} EmptyLoadChangesNothing(fm: FaceMap, pm: PtrMap, buf: BufId, open: Opener)
    ensures var r := Load(fm, pm, buf, open);
      r.loaded == [] ==> r.faceMap == fm && r.facePtrs == pm
  {
    var r := Load(fm, pm, buf, open);
    if open(buf, -1).Some? && r.loaded == [] {
      var n := open(buf, -1).value.numFaces;
      LoadFromPtrs(fm, pm, buf, open, 0, n, []);
      if 0 < n && open(buf, 0).Some? {
        var rec := open(buf, 0).value;
        if !Registered(fm, rec.family, rec.style) {
          var fm', pm' := Register(fm, Face(buf, 0, rec)), AppendBuf(pm, rec.family, buf);
          var none: seq<FaceRec> := [];
          assert r == LoadFrom(fm', pm', buf, open, 1, n, none + [rec]);
          LoadFromPrefix(fm', pm', buf, open, 1, n, none + [rec]);
        }
      }
    }
  }

  /** Loading never changes or removes a registered face. */
  lemma LoadKeepsExisting(fm: FaceMap, pm: PtrMap, buf: BufId, open: Opener)
    ensures Extends(fm, Load(fm, pm, buf, open).faceMap)
  {
    if open(buf, -1).Some? {
      LoadFromKeeps(fm, pm, buf, open, 0, open(buf, -1).value.numFaces, []);
    }
  }

  /**
   * What any load returns: the records of faces 0, 1, ... in order, each
   * registered under its own names and new to the registry; it releases
   * the buffer exactly when it stopped short of the probed count, and then
   * the face where it stopped could not be opened or was already loaded.
   */
  lemma LoadReturnsFacesInOrder(fm: FaceMap, pm: PtrMap, buf: BufId, open: Opener)
    ensures var r := Load(fm, pm, buf, open);
      && (r.loaded == [] || |r.loaded| <= ProbedCount(buf, open))
      && (forall j :: 0 <= j < |r.loaded| ==> open(buf, j) == Some(r.loaded[j]))
      && (forall j :: 0 <= j < |r.loaded| ==>
            !Registered(fm, r.loaded[j].family, r.loaded[j].style) &&
            Registered(r.faceMap, r.loaded[j].family, r.loaded[j].style) &&
            At(r.faceMap, r.loaded[j].family, r.loaded[j].style) == Face(buf, j, r.loaded[j]))
      && (r.released <==> open(buf, -1).None? || |r.loaded| < ProbedCount(buf, open))
      && (r.released && open(buf, -1).Some? ==>
            (open(buf, |r.loaded|).None? ||
             Registered(r.faceMap, open(buf, |r.loaded|).value.family, open(buf, |r.loaded|).value.style)))
  {
    if open(buf, -1).Some? {
      var n := open(buf, -1).value.numFaces;
      LoadFromPrefix(fm, pm, buf, open, 0, n, []);
      LoadFromOpened(fm, pm, buf, open, 0, n, []);
      LoadFromRegisters(fm, pm, buf, open, 0, n, []);
      LoadFromReleased(fm, pm, buf, open, 0, n, []);
    }
  }

  /** The buffer is recorded at most once, under the family of face 0, and only if face 0 was loaded. */
  lemma LoadRecordsBufferOnce(fm: FaceMap, pm: PtrMap, buf: BufId, open: Opener)
    ensures var r := Load(fm, pm, buf, open);
      r.facePtrs == if r.loaded == [] then pm else AppendBuf(pm, r.loaded[0].family, buf)
  {
    if open(buf, -1).Some? {
      LoadFromPtrs(fm, pm, buf, open, 0, open(buf, -1).value.numFaces, []);
    }
  }

  /**
   * A face whose pair is already registered ends the load before it: the
   * buffer is released, nothing from that index on is returned, and the
   * existing entry keeps its handle.
   */
  lemma DuplicateStopsLoad(fm: FaceMap, pm: PtrMap, buf: BufId, open: Opener, k: nat)
    requires open(buf, -1).Some? && k < open(buf, -1).value.numFaces
    requires open(buf, k).Some? && Registered(fm, open(buf, k).value.family, open(buf, k).value.style)
    ensures var r := Load(fm, pm, buf, open);
      && r.released && |r.loaded| <= k
      && var rec := open(buf, k).value;
         Registered(r.faceMap, rec.family, rec.style) && At(r.faceMap, rec.family, rec.style) == At(fm, rec.family, rec.style)
  {
    var r := Load(fm, pm, buf, open);
    LoadReturnsFacesInOrder(fm, pm, buf, open);
    LoadKeepsExisting(fm, pm, buf, open);
  }

  /**
   * Faces `i` .. n-1 of the buffer all open, their (family, style) pairs
   * are pairwise distinct, and none of them is registered yet.
   */
  ghost predicate FreshFrom(fm: FaceMap, buf: BufId, open: Opener, i: int, n: int) {
    && (forall j :: i <= j < n ==> open(buf, j).Some?)
    && (forall j :: i <= j < n && open(buf, j).Some? ==>
          !Registered(fm, open(buf, j).value.family, open(buf, j).value.style))
    && (forall j, j' :: i <= j < j' < n && open(buf, j).Some? && open(buf, j').Some? ==>
          (open(buf, j).value.family, open(buf, j).value.style) != (open(buf, j').value.family, open(buf, j').value.style))
  }

  /** A loop over fresh faces runs to the end and keeps the buffer. */
  lemma {:induction false} LoadFromFresh(fm: FaceMap, pm: PtrMap, buf: BufId, open: Opener, i: nat, n: int, loaded: seq<FaceRec>)
    requires FreshFrom(fm, buf, open, i, n)
    ensures !LoadFrom(fm, pm, buf, open, i, n, loaded).released
    decreases n - i
  {
    if i < n {
      var rec := open(buf, i).value;
      var fm' := Register(fm, Face(buf, i, rec));
      var pm' := if i == 0 then AppendBuf(pm, rec.family, buf) else pm;
      assert !Registered(fm, rec.family, rec.style);
      assert LoadFrom(fm, pm, buf, open, i, n, loaded) == LoadFrom(fm', pm', buf, open, i + 1, n, loaded + [rec]);
      assert FreshFrom(fm', buf, open, i + 1, n) by {
        forall j | i + 1 <= j < n && open(buf, j).Some?
          ensures !Registered(fm', open(buf, j).value.family, open(buf, j).value.style)
        {
          assert (rec.family, rec.style) != (open(buf, j).value.family, open(buf, j).value.style);
        }
      }
      LoadFromFresh(fm', pm', buf, open, i + 1, n, loaded + [rec]);
    }
  }

  /**
   * A load of n faces that all open and are all new returns the n records
   * in face-index order, registers each under its own names, records the
   * buffer once under the family of face 0, and keeps the buffer.
   */
  lemma FullLoad(fm: FaceMap, pm: PtrMap, buf: BufId, open: Opener)
    requires open(buf, -1).Some?
    requires FreshFrom(fm, buf, open, 0, open(buf, -1).value.numFaces)
    ensures var r := Load(fm, pm, buf, open);
      && !r.released
      && |r.loaded| == (if open(buf, -1).value.numFaces < 0 then 0 else open(buf, -1).value.numFaces)
      && (forall j :: 0 <= j < |r.loaded| ==> Some(r.loaded[j]) == open(buf, j))
      && (forall j :: 0 <= j < |r.loaded| ==>
            Registered(r.faceMap, r.loaded[j].family, r.loaded[j].style) &&
            At(r.faceMap, r.loaded[j].family, r.loaded[j].style) == Face(buf, j, r.loaded[j]))
      && r.facePtrs == if r.loaded == [] then pm else AppendBuf(pm, r.loaded[0].family, buf)
  {
    LoadFromFresh(fm, pm, buf, open, 0, open(buf, -1).value.numFaces, []);
    LoadReturnsFacesInOrder(fm, pm, buf, open);
    LoadRecordsBufferOnce(fm, pm, buf, open);
  }

  /** An entry of the result is either an old one or the entry of a face the load returned. */
  lemma {:induction false} LoadFromOnlyNew(fm: FaceMap, pm: PtrMap, buf: BufId, open: Opener, i: nat, n: int, loaded: seq<FaceRec>, family: string, style: string)
    requires |loaded| == i
    ensures var r := LoadFrom(fm, pm, buf, open, i, n, loaded);
      Registered(r.faceMap, family, style) ==>
        Registered(fm, family, style) ||
        exists j :: i <= j < |r.loaded| && r.loaded[j].family == family && r.loaded[j].style == style
    decreases n - i
  {
    if i < n {
      match open(buf, i)
      case None =>
      case Some(rec) =>
        if !Registered(fm, rec.family, rec.style) {
          var pm' := if i == 0 then AppendBuf(pm, rec.family, buf) else pm;
          var fm' := Register(fm, Face(buf, i, rec));
          LoadFromOnlyNew(fm', pm', buf, open, i + 1, n, loaded + [rec], family, style);
          LoadFromPrefix(fm', pm', buf, open, i + 1, n, loaded + [rec]);
          var r := LoadFrom(fm', pm', buf, open, i + 1, n, loaded + [rec]);
          if Registered(r.faceMap, family, style) && !Registered(fm, family, style) &&
             (family, style) == (rec.family, rec.style) {
            assert r.loaded[i] == rec by { assert r.loaded[..i + 1][i] == rec; }
          }
        }
    }
  }

  /** A load registers no entry beyond the records it returns. */
  lemma LoadAddsOnlyReturned(fm: FaceMap, pm: PtrMap, buf: BufId, open: Opener, family: string, style: string)
    ensures var r := Load(fm, pm, buf, open);
      Registered(r.faceMap, family, style) ==>
        Registered(fm, family, style) ||
        exists j :: 0 <= j < |r.loaded| && r.loaded[j].family == family && r.loaded[j].style == style
  {
    if open(buf, -1).Some? {
      LoadFromOnlyNew(fm, pm, buf, open, 0, open(buf, -1).value.numFaces, [], family, style);
    }
  }

  /**
   * As written, only the family of face 0 owns the buffer: a returned face
   * of another family that owned no buffer before is registered on the
   * buffer, while its family still owns none, so unloading the family of
   * face 0 frees memory that face still uses.
   */
  lemma LoadBufferOwnedByFirstFamily(fm: FaceMap, pm: PtrMap, buf: BufId, open: Opener, j: nat)
    requires var r := Load(fm, pm, buf, open);
      j < |r.loaded| && r.loaded[j].family != r.loaded[0].family && r.loaded[j].family !in pm
    ensures var r := Load(fm, pm, buf, open);
      && r.loaded[0].family in r.facePtrs && buf in r.facePtrs[r.loaded[0].family]
      && r.loaded[j].family !in r.facePtrs
      && Registered(r.faceMap, r.loaded[j].family, r.loaded[j].style)
      && At(r.faceMap, r.loaded[j].family, r.loaded[j].style).buf == buf
  {
    LoadRecordsBufferOnce(fm, pm, buf, open);
    LoadReturnsFacesInOrder(fm, pm, buf, open);
    var r := Load(fm, pm, buf, open);
    var fam := r.loaded[0].family;
    assert r.facePtrs[fam][|r.facePtrs[fam]| - 1] == buf;
  }

  /** A two-face collection whose faces belong to families "A" and "B". */
  function TwoFamilies(b: BufId, i: int): Option<FaceRec> {
    if i == -1 then Some(FaceRec("A", "R", 2, [], 0, [], 0))
    else if i == 0 then Some(FaceRec("A", "R", 2, [], 0, [], 0))
    else if i == 1 then Some(FaceRec("B", "R", 2, [], 0, [], 0))
    else None
  }

  /**
   * The premise of `LoadBufferOwnedByFirstFamily` is met: loading that
   * collection into empty tables registers ("B", "R") on the buffer while
   * "B" owns no buffer.
   */
  lemma SharedBufferWitness(buf: BufId)
    ensures var r := Load(map[], map[], buf, TwoFamilies);
      && |r.loaded| == 2 && !r.released
      && r.facePtrs == map["A" := [buf]]
      && Registered(r.faceMap, "B", "R") && At(r.faceMap, "B", "R").buf == buf
  {
    var fm0: FaceMap := map[];
    var pm0: PtrMap := map[];
    var none: seq<FaceRec> := [];
    var a, b := TwoFamilies(buf, 0).value, TwoFamilies(buf, 1).value;
    var fm1 := Register(fm0, Face(buf, 0, a));
    var pm1 := AppendBuf(pm0, "A", buf);
    assert pm1 == map["A" := [buf]] by {
      assert pm1.Keys == {"A"};
      assert pm1["A"] == [buf];
    }
    assert Load(fm0, pm0, buf, TwoFamilies) == LoadFrom(fm1, pm1, buf, TwoFamilies, 1, 2, none + [a]);
    assert !Registered(fm1, "B", "R");
    var fm2 := Register(fm1, Face(buf, 1, b));
    assert LoadFrom(fm1, pm1, buf, TwoFamilies, 1, 2, none + [a]) == LoadFrom(fm2, pm1, buf, TwoFamilies, 2, 2, none + [a] + [b]);
  }

  /**
   * As written, a load that stops at a face index above 0 still releases
   * the buffer although face 0 recorded it under its family, and faces
   * 0 .. i-1 stay registered on it.
   */
  lemma LoadPartialFailureKeepsBuffer(fm: FaceMap, pm: PtrMap, buf: BufId, open: Opener)
    ensures var r := Load(fm, pm, buf, open);
      r.released && r.loaded != [] ==>
        && r.loaded[0].family in r.facePtrs
        && buf in r.facePtrs[r.loaded[0].family]
        && Registered(r.faceMap, r.loaded[0].family, r.loaded[0].style)
        && At(r.faceMap, r.loaded[0].family, r.loaded[0].style).buf == buf
  {
    LoadRecordsBufferOnce(fm, pm, buf, open);
    LoadReturnsFacesInOrder(fm, pm, buf, open);
    var r := Load(fm, pm, buf, open);
    if r.loaded != [] {
      var fam := r.loaded[0].family;
      assert r.facePtrs[fam][|r.facePtrs[fam]| - 1] == buf;
    }
  }

  /** Loading keeps the registry well keyed and every buffer owner a registered family. */
  lemma LoadPreservesWellKeyed(fm: FaceMap, pm: PtrMap, buf: BufId, open: Opener)
    requires WellKeyed(fm) && pm.Keys <= fm.Keys
    ensures var r := Load(fm, pm, buf, open);
      WellKeyed(r.faceMap) && r.facePtrs.Keys <= r.faceMap.Keys
  {
    if open(buf, -1).Some? {
      LoadFromWellKeyed(fm, pm, buf, open, 0, open(buf, -1).value.numFaces, []);
    }
  }

  /**
   * Unloading the one family a load added gives back the registries as
   * they were before the load.
   */
  lemma UnloadUndoesLoad(fm: FaceMap, pm: PtrMap, buf: BufId, open: Opener, family: string)
    requires family !in fm && family !in pm
    requires forall j :: 0 <= j < |Load(fm, pm, buf, open).loaded| ==> Load(fm, pm, buf, open).loaded[j].family == family
    ensures Load(fm, pm, buf, open).faceMap - {family} == fm
    ensures Load(fm, pm, buf, open).facePtrs - {family} == pm
  {
    var r := Load(fm, pm, buf, open);
    LoadRecordsBufferOnce(fm, pm, buf, open);
    if open(buf, -1).Some? {
      var n := open(buf, -1).value.numFaces;
      forall g | g != family
        ensures (g in r.faceMap <==> g in fm) && (g in fm ==> r.faceMap[g] == fm[g])
      {
        LoadFromUntouched(fm, pm, buf, open, 0, n, [], g);
      }
    }
    assert (r.faceMap - {family}).Keys == fm.Keys;
  }
}
