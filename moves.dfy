/** Model of the Move value (loa/Move.java is not part of this model): a
 *  from-to pair of squares plus the capture marker that makeMove records. */
module Moves {
  import opened Wrappers
  import opened Squares

  datatype Move = Move(from: Square, to: Square, isCapture: bool)

  /** Move.mv: the non-capturing move FROM-TO, or None (null) when the two
   *  squares do not share a line. */
  function Mv(from: Square, to: Square): (r: Option<Move>)
    ensures r.Some? <==> OnLine(from, to)
    ensures r.Some? ==> r.value.from == from && r.value.to == to && !r.value.isCapture
  {
    if OnLine(from, to) then Some(Move(from, to, false)) else None
  }

  /** Move.captureMove: the same move marked as a capture. */
  function CaptureMove(m: Move): (c: Move)
    ensures c.from == m.from && c.to == m.to && c.isCapture
  {
    m.(isCapture := true)
  }
}
