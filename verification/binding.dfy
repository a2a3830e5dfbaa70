/**
 * The process-wide state of the binding (`face_map`, `face_ptrs`,
 * `current_face`) and the exported operations that read or change it.
 */
module Binding {
  import opened Wrappers
  import opened FreeType
  import opened FaceTable
  import CharWalk

  class FontState {
    /** family name -> style name -> face handle */
    var faceMap: FaceMap
    /** family name -> the font buffers that family owns */
    var facePtrs: PtrMap
    /** the active face; None stands for a null `current_face` */
    var current: Option<Face>

    /**
     * Every handle sits under its own names, every buffer owner is a
     * loaded family, and the active face is one that is registered.
     */
    ghost predicate Valid()
      reads this
    {
      && WellKeyed(faceMap)
      && facePtrs.Keys <= faceMap.Keys
      && (current.Some? ==>
            Registered(faceMap, current.value.rec.family, current.value.rec.style) &&
            At(faceMap, current.value.rec.family, current.value.rec.style) == current.value)
    }

    /** The state at start-up: both tables empty, no active face. */
    constructor ()
      ensures Valid()
      ensures faceMap == map[] && facePtrs == map[] && current == None
    {
      faceMap := map[];
      facePtrs := map[];
      current := None;
    }

    /**
     * `LoadFontFromBytes`: opens every face of the font in buffer `buf`
     * and registers it, returning the face records and whether the buffer
     * was released.  `open` stands for `FT_New_Memory_Face`.
     */
    method LoadFontFromBytes(buf: BufId, open: Opener) returns (loaded: seq<FaceRec>, released: bool)
      requires Valid()
      modifies this
      ensures Valid()
      ensures LoadResult(faceMap, facePtrs, loaded, released) == Load(old(faceMap), old(facePtrs), buf, open)
      ensures current == old(current)
      ensures open(buf, -1).None? ==>
        loaded == [] && released && faceMap == old(faceMap) && facePtrs == old(facePtrs)
      ensures Extends(old(faceMap), faceMap)
      ensures forall family, style :: Registered(faceMap, family, style) ==>
        Registered(old(faceMap), family, style) ||
        exists j :: 0 <= j < |loaded| && loaded[j].family == family && loaded[j].style == style
      ensures forall j :: 0 <= j < |loaded| ==>
        open(buf, j) == Some(loaded[j]) &&
        Registered(faceMap, loaded[j].family, loaded[j].style) &&
        At(faceMap, loaded[j].family, loaded[j].style) == Face(buf, j, loaded[j])
      ensures facePtrs == if loaded == [] then old(facePtrs) else AppendBuf(old(facePtrs), loaded[0].family, buf)
    {
      ghost var fm0, pm0 := faceMap, facePtrs;
      var probe := open(buf, -1);
      if probe.None? {
        loaded, released := [], true;
      } else {
        loaded, released := RegisterFaces(buf, open, probe.value.numFaces);
      }
      assert LoadResult(faceMap, facePtrs, loaded, released) == Load(fm0, pm0, buf, open);
      assert Extends(fm0, faceMap) by {
        LoadKeepsExisting(fm0, pm0, buf, open);
      }
      assert Valid() by {
        LoadPreservesWellKeyed(fm0, pm0, buf, open);
      }
      forall family, style | Registered(faceMap, family, style)
        ensures Registered(fm0, family, style) ||
          exists j :: 0 <= j < |loaded| && loaded[j].family == family && loaded[j].style == style
      {
        LoadAddsOnlyReturned(fm0, pm0, buf, open, family, style);
      }
      assert forall j :: 0 <= j < |loaded| ==>
        open(buf, j) == Some(loaded[j]) &&
        Registered(faceMap, loaded[j].family, loaded[j].style) &&
        At(faceMap, loaded[j].family, loaded[j].style) == Face(buf, j, loaded[j])
      by {
        LoadReturnsFacesInOrder(fm0, pm0, buf, open);
      }
      assert facePtrs == if loaded == [] then pm0 else AppendBuf(pm0, loaded[0].family, buf) by {
        LoadRecordsBufferOnce(fm0, pm0, buf, open);
      }
    }

    /**
     * The face-index loop of `LoadFontFromBytes`: faces 0 .. n-1 of `buf`,
     * each registered unless it fails to open or its pair is taken.
     */
    method RegisterFaces(buf: BufId, open: Opener, n: int) returns (loaded: seq<FaceRec>, released: bool)
      modifies this`faceMap, this`facePtrs
      ensures LoadResult(faceMap, facePtrs, loaded, released) == LoadFrom(old(faceMap), old(facePtrs), buf, open, 0, n, [])
    {
      ghost var fm0, pm0 := faceMap, facePtrs;
      loaded, released := [], false;
      var i := 0;
      while i < n
        invariant |loaded| == i
        invariant LoadFrom(faceMap, facePtrs, buf, open, i, n, loaded) == LoadFrom(fm0, pm0, buf, open, 0, n, [])
        decreases n - i
      {
        var attempt := open(buf, i);
        if attempt.None? {
          released := true;
          return;
        }
        var rec := attempt.value;
        if Registered(faceMap, rec.family, rec.style) {
          released := true;
          return;
        }
        if i == 0 {
          facePtrs := AppendBuf(facePtrs, rec.family, buf);
        }
        faceMap := Register(faceMap, Face(buf, i, rec));
        loaded := loaded + [rec];
        i := i + 1;
      }
    }

    /**
     * `UnloadFont`: drops the family from both tables, hands its faces to
     * `FT_Done_Face` and its buffers to `free` (returned here as `closed`
     * and `freed`), and clears the active face if it belongs to the family.
     */
    method UnloadFont(family: string) returns (closed: set<Face>, freed: seq<BufId>)
      requires Valid()
      modifies this
      ensures Valid()
      ensures family !in faceMap && family !in facePtrs
      ensures faceMap == old(faceMap) - {family} && facePtrs == old(facePtrs) - {family}
      ensures current == if old(current).Some? && old(current).value.rec.family == family then None else old(current)
      ensures closed == if family in old(faceMap) then old(faceMap)[family].Values else {}
      ensures freed == if family in old(facePtrs) then old(facePtrs)[family] else []
    {
      if current.Some? && current.value.rec.family == family {
        current := None;
      }
      closed := if family in faceMap then faceMap[family].Values else {};
      faceMap := faceMap - {family};
      freed := if family in facePtrs then facePtrs[family] else [];
      facePtrs := facePtrs - {family};
      assert WellKeyed(faceMap) by {
        forall f, style | Registered(faceMap, f, style)
          ensures At(faceMap, f, style).rec.family == f && At(faceMap, f, style).rec.style == style
        {
          assert Registered(old(faceMap), f, style);
        }
      }
    }

    /**
     * `SetFont`: makes the registered face (family, style) the active one
     * and returns its record.
     */
    method SetFont(family: string, style: string) returns (rec: FaceRec)
      requires Valid() && Registered(faceMap, family, style)
      modifies this`current
      ensures Valid()
      ensures current == Some(At(faceMap, family, style)) && rec == At(faceMap, family, style).rec
      ensures rec.family == family && rec.style == style
    {
      current := Some(faceMap[family][style]);
      rec := current.value.rec;
    }

    /**
     * `SetCharmapByIndex`: fails without an active face or for an index
     * outside [0, num_charmaps); otherwise reports whether `FT_Set_Charmap`
     * (here `setCharmap`) accepted charmap number `index`.
     */
    method SetCharmapByIndex(index: int, setCharmap: (Face, CharMapRec) -> bool) returns (ok: bool)
      requires current.Some? ==> current.value.rec.numCharmaps <= |current.value.rec.charmaps|
      ensures ok <==>
        && current.Some?
        && 0 <= index < current.value.rec.numCharmaps
        && setCharmap(current.value, current.value.rec.charmaps[index])
    {
      if current.None? {
        return false;
      }
      var face := current.value;
      var k := 0;
      while k < face.rec.numCharmaps
        invariant 0 <= k
        invariant k <= face.rec.numCharmaps || k == 0
        invariant !(0 <= index < k)
      {
        if k == index {
          ok := setCharmap(face, face.rec.charmaps[k]);
          return;
        }
        k := k + 1;
      }
      return false;
    }

    /**
     * `LoadChars`: without an active face nothing happens; otherwise the
     * callback sees the characters from `FT_Get_First_Char` (`first`) on.
     * The result lists the (code, glyph index) pairs handed to the callback.
     */
    method LoadChars(first: Face -> CharStep, next: Successor, cb: CharWalk.Callback) returns (calls: seq<CharStep>)
      requires Increasing(next)
      ensures current.None? ==> calls == []
      ensures current.Some? ==> calls == CharWalk.Walk(current.value, next, cb, first(current.value))
    {
      if current.None? {
        return [];
      }
      calls := CharWalk.RunWalk(current.value, next, cb, first(current.value));
    }

    /**
     * `LoadCharsFrom`: as `LoadChars`, starting at the first character
     * after `firstCode`.
     */
    method LoadCharsFrom(firstCode: Charcode, next: Successor, cb: CharWalk.Callback) returns (calls: seq<CharStep>)
      requires Increasing(next)
      ensures current.None? ==> calls == []
      ensures current.Some? ==> calls == CharWalk.Walk(current.value, next, cb, next(current.value, firstCode))
    {
      if current.None? {
        return [];
      }
      calls := CharWalk.RunWalk(current.value, next, cb, next(current.value, firstCode));
    }
  }
}
