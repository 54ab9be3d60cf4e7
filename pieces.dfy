/** Model of the Piece enumeration (loa/Piece.java is not part of this model):
 *  a black piece, a white piece, or an empty cell. */
module Pieces {
  datatype Piece = BP | WP | EMP

  /** The other side.  The source's `opposite` is only ever applied to a side,
   *  never to an empty cell, so the model requires that. */
  function Opposite(p: Piece): (q: Piece)
    requires p != EMP
    ensures q != EMP && q != p
    ensures p == BP <==> q == WP
  {
    if p == BP then WP else BP
  }
}
