/** The perspective grid's corner handles: which corner a mouse press grabs. Corners are only
    ever set from whole pixel coordinates, so they are kept as integers. */
module Grid {
  /** A position on screen, in whole pixels. */
  datatype Pixel = Pixel(x: int, y: int)

  function DistanceSquared(a: Pixel, b: Pixel): (d: int)
    ensures d >= 0
    ensures d == 0 <==> a == b
  {
    var dx, dy := a.x - b.x, a.y - b.y;
    SquareSign(dx);
    SquareSign(dy);
    dx * dx + dy * dy
  }

  lemma SquareSign(a: int)
    ensures a * a >= 0 && (a * a == 0 <==> a == 0)
  {
  }

  /** `k` is the corner a press at `p` grabs when `start` was grabbed before: a closest corner;
      the previous one when it is among the closest; otherwise the first of the closest. */
  predicate IsNearest(cs: seq<Pixel>, p: Pixel, start: int, k: int)
    requires 0 <= start < |cs|
  {
    && 0 <= k < |cs|
    && (forall i :: 0 <= i < |cs| ==> DistanceSquared(cs[k], p) <= DistanceSquared(cs[i], p))
    && (DistanceSquared(cs[start], p) == DistanceSquared(cs[k], p) ==> k == start)
    && (k != start ==> forall i :: 0 <= i < k ==> DistanceSquared(cs[k], p) < DistanceSquared(cs[i], p))
  }

  /** The grabbed corner is determined by the corners, the press and the previous grab. */
  lemma NearestUnique(cs: seq<Pixel>, p: Pixel, start: int, k: int, k': int)
    requires 0 <= start < |cs|
    requires IsNearest(cs, p, start, k) && IsNearest(cs, p, start, k')
    ensures k == k'
  {
  }

  /** A press exactly on a corner grabs a corner lying at the press position. */
  lemma PressOnCorner(cs: seq<Pixel>, p: Pixel, start: int, k: int, i: int)
    requires 0 <= start < |cs| && 0 <= i < |cs| && cs[i] == p
    requires IsNearest(cs, p, start, k)
    ensures cs[k] == p
  {
  }

  /** After a press has moved the grabbed corner to the mouse position, a second press at the same spot
      grabs that corner again. */
  lemma PressAgain(cs: seq<Pixel>, p: Pixel, start: int, k: int)
    requires 0 <= start < |cs| && IsNearest(cs, p, start, k)
    ensures IsNearest(cs[k := p], p, k, k)
  {
  }
}
