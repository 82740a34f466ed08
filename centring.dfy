/**
 Vertical centring of the dialog box against the viewport, as `handleResize`
 does it: a dialog that fits gets equal margins above and below, one that does
 not fit (or fits exactly) keeps its top offset.
 */
module Centring {

  /** The top offset after centring a dialog of `height` in a viewport of `viewport`. */
  function CentredTop(height: int, viewport: int, top: real): (r: real)
    ensures height < viewport ==> 0.0 < r && r + height as real < viewport as real
    ensures height < viewport ==> r == viewport as real - (r + height as real)
    ensures viewport <= height ==> r == top
  {
    if height < viewport then (viewport - height) as real / 2.0 else top
  }

  /** The equal-margins condition determines the offset: no other top centres the dialog. */
  lemma CentredTopUnique(height: int, viewport: int, top: real, t: real)
    requires height < viewport
    requires t == viewport as real - (t + height as real)
    ensures t == CentredTop(height, viewport, top)
  {
  }

  /** Centring again without a change of heights moves nothing. */
  lemma CentredTopIdempotent(height: int, viewport: int, top: real)
    ensures CentredTop(height, viewport, CentredTop(height, viewport, top)) == CentredTop(height, viewport, top)
  {
  }

  /** A 100px dialog in a 1000px viewport sits 450px from the top. */
  lemma CentredTopExample(top: real)
    ensures CentredTop(100, 1000, top) == 450.0
  {
  }
}
