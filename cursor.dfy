/** The bounded menu cursor shared by the two richer revisions. Options are
    numbered from 1; `maxPosition` is the number of options. */
module Cursor {

  /** `moveCursor`: the cursor moves by `offset` only when it would land on
      an option, otherwise it stays. */
  function MovedCursor(cursor: int, offset: int, maxPosition: int): (r: int)
    ensures 0 < cursor + offset <= maxPosition ==> r == cursor + offset
    ensures !(0 < cursor + offset <= maxPosition) ==> r == cursor
  {
    var to := cursor + offset;
    if to > 0 && to <= maxPosition then to else cursor
  }

  /** A run of key presses, applied in order. */
  function MovedCursorAll(cursor: int, offsets: seq<int>, maxPosition: int): int
    decreases |offsets|
  {
    if offsets == [] then cursor
    else MovedCursorAll(MovedCursor(cursor, offsets[0], maxPosition), offsets[1..], maxPosition)
  }

  /** A cursor on an option stays on an option whatever keys are pressed. */
  lemma {:induction false} CursorStaysOnOptions(cursor: int, offsets: seq<int>, maxPosition: int)
    requires 1 <= cursor <= maxPosition
    ensures 1 <= MovedCursorAll(cursor, offsets, maxPosition) <= maxPosition
    decreases |offsets|
  {
    if offsets != [] {
      CursorStaysOnOptions(MovedCursor(cursor, offsets[0], maxPosition), offsets[1..], maxPosition);
    }
  }

  /** With no options the cursor never moves from where it started. */
  lemma {:induction false} NoOptionsNoMove(cursor: int, offsets: seq<int>)
    ensures MovedCursorAll(cursor, offsets, 0) == cursor
    decreases |offsets|
  {
    if offsets != [] {
      NoOptionsNoMove(cursor, offsets[1..]);
    }
  }
}
