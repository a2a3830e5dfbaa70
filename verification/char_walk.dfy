/**
 * The synchronous walk over a face's character map in `LoadChars` and
 * `LoadCharsFrom`: hand each (character code, glyph index) to the host
 * callback, stop when the callback answers false or when FreeType reports
 * no further character (glyph index 0).
 */
module CharWalk {
  import opened FreeType

  /**
   * The host callback's answer for a character code and its glyph index:
   * false when the host value is exactly JavaScript `false` (`isFalse()`),
   * true for anything else, `undefined`, `0` and `null` included.
   */
  type Callback = (Charcode, nat) -> bool

  /** The calls made to the callback, starting at step `s`. */
  function Walk(face: Face, next: Successor, cb: Callback, s: CharStep): seq<CharStep>
    requires Increasing(next)
    decreases 0x1_0000_0000 - s.code
  {
    if s.gindex == 0 then []
    else if !cb(s.code, s.gindex) then [s]
    else
      var t := next(face, s.code);
      [s] + (if t.gindex == 0 then [] else Walk(face, next, cb, t))
  }

  /**
   * The walk starts at `s`, follows FreeType's successor, hands the callback
   * only characters that have a glyph, and every call but the last was
   * answered true.
   */
  lemma {:induction false} WalkFollowsSuccessor(face: Face, next: Successor, cb: Callback, s: CharStep)
    requires Increasing(next)
    ensures var calls := Walk(face, next, cb, s);
      && (calls == [] <==> s.gindex == 0)
      && (calls != [] ==> calls[0] == s)
      && (forall j :: 0 <= j < |calls| ==> calls[j].gindex != 0)
      && (forall j :: 0 <= j < |calls| - 1 ==>
            cb(calls[j].code, calls[j].gindex) && calls[j + 1] == next(face, calls[j].code))
    decreases 0x1_0000_0000 - s.code
  {
    if s.gindex != 0 && cb(s.code, s.gindex) {
      var t := next(face, s.code);
      if t.gindex != 0 {
        WalkFollowsSuccessor(face, next, cb, t);
      }
    }
  }

  /**
   * The walk ends for one of the two reasons of the loop: the callback
   * answered false on the last character, or FreeType has no character
   * after it.
   */
  lemma {:induction false} WalkStopsForAReason(face: Face, next: Successor, cb: Callback, s: CharStep)
    requires Increasing(next)
    ensures var calls := Walk(face, next, cb, s);
      calls != [] ==>
        var last := calls[|calls| - 1];
        !cb(last.code, last.gindex) || next(face, last.code).gindex == 0
    decreases 0x1_0000_0000 - s.code
  {
    if s.gindex != 0 && cb(s.code, s.gindex) {
      var t := next(face, s.code);
      if t.gindex != 0 {
        WalkStopsForAReason(face, next, cb, t);
      }
    }
  }

  /** Character codes come in strictly increasing order, so none is visited twice. */
  lemma {:induction false} WalkIncreasing(face: Face, next: Successor, cb: Callback, s: CharStep)
    requires Increasing(next)
    ensures var calls := Walk(face, next, cb, s);
      forall j, j' :: 0 <= j < j' < |calls| ==> calls[j].code < calls[j'].code
    decreases 0x1_0000_0000 - s.code
  {
    if s.gindex != 0 && cb(s.code, s.gindex) {
      var t := next(face, s.code);
      if t.gindex != 0 {
        WalkIncreasing(face, next, cb, t);
        WalkFollowsSuccessor(face, next, cb, t);
        var rest := Walk(face, next, cb, t);
        assert forall j :: 0 <= j < |rest| ==> s.code < rest[j].code by {
          forall j | 0 <= j < |rest| ensures s.code < rest[j].code {
            if j > 0 { assert rest[0].code < rest[j].code; }
          }
        }
      }
    }
  }

  /** The loop shared by `LoadChars` and `LoadCharsFrom`, from the first step on. */
  method RunWalk(face: Face, next: Successor, cb: Callback, start: CharStep) returns (calls: seq<CharStep>)
    requires Increasing(next)
    ensures calls == Walk(face, next, cb, start)
  {
    calls := [];
    var step := start;
    while step.gindex != 0
      invariant calls + Walk(face, next, cb, step) == Walk(face, next, cb, start)
      decreases if step.gindex == 0 then 0 else 0x1_0000_0000 - step.code
    {
      var goOn := cb(step.code, step.gindex);
      calls := calls + [step];
      if !goOn {
        return;
      }
      step := next(face, step.code);
    }
  }
}
