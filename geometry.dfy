/**
 * Integer rectangle arithmetic of the mouth-region heuristic: for every
 * detected face, the lower third of the face, middle half of its width,
 * clamped against the frame.
 */
module Geometry {

  /** The size of a frame (a matrix has no negative dimensions). */
  datatype Size = Size(width: nat, height: nat)

  /** An axis-aligned rectangle with integer coordinates, as a detector returns it. */
  datatype Rect = Rect(x: int, y: int, width: int, height: int)

  function Max(a: int, b: int): int { if a < b then b else a }

  function Min(a: int, b: int): int { if a < b then a else b }

  /**
   * Integer division as the source language performs it: the quotient is
   * truncated toward zero, so the remainder takes the sign of the dividend.
   */
  function TruncDiv(a: int, d: int): (q: int)
    requires d > 0
    ensures a >= 0 ==> q == a / d && 0 <= a - q * d < d
    ensures a < 0 ==> q <= 0 && -d < a - q * d <= 0
  {
    if a >= 0 then a / d else -((-a) / d)
  }

  /**
   * The mouth region of one face within a frame: start a quarter of the face
   * width in from its left edge and two thirds of its height down, take half
   * the face width and a third of its height, move a negative origin onto the
   * frame edge, then cut the width and height at the frame's right and bottom
   * edges. Moving the origin does not shrink the width or height. For a face of
   * non-negative size, the width (height) is negative exactly when the region
   * starts beyond the frame's right (bottom) edge.
   */
  function MouthRegion(frame: Size, face: Rect): (r: Rect)
    ensures r.x == Max(0, face.x + TruncDiv(face.width, 4)) && r.y == Max(0, face.y + TruncDiv(2 * face.height, 3))
    ensures r.x >= 0 && r.y >= 0
    ensures r.width <= TruncDiv(face.width, 2) && r.x + r.width <= frame.width
    ensures r.height <= TruncDiv(face.height, 3) && r.y + r.height <= frame.height
    ensures r.x + TruncDiv(face.width, 2) <= frame.width ==> r.width == TruncDiv(face.width, 2)
    ensures r.x + TruncDiv(face.width, 2) > frame.width ==> r.x + r.width == frame.width
    ensures r.y + TruncDiv(face.height, 3) <= frame.height ==> r.height == TruncDiv(face.height, 3)
    ensures r.y + TruncDiv(face.height, 3) > frame.height ==> r.y + r.height == frame.height
    ensures face.width >= 0 ==> (r.width >= 0 <==> r.x <= frame.width)
    ensures face.height >= 0 ==> (r.height >= 0 <==> r.y <= frame.height)
  {
    var x := Max(0, face.x + TruncDiv(face.width, 4));
    var y := Max(0, face.y + TruncDiv(2 * face.height, 3));
    Rect(x, y, Min(TruncDiv(face.width, 2), frame.width - x), Min(TruncDiv(face.height, 3), frame.height - y))
  }

  /** One mouth region per face, in the order of the faces. */
  method MouthRegions(frame: Size, faces: seq<Rect>) returns (regions: seq<Rect>)
    ensures |regions| == |faces|
    ensures forall i :: 0 <= i < |faces| ==> regions[i] == MouthRegion(frame, faces[i])
  {
    regions := [];
    for i := 0 to |faces|
      invariant |regions| == i
      invariant forall j :: 0 <= j < i ==> regions[j] == MouthRegion(frame, faces[j])
    {
      regions := regions + [MouthRegion(frame, faces[i])];
    }
  }

  /**
   * For a face with non-negative coordinates and size that lies inside the
   * frame, clamping changes nothing: the region is exactly
   * (X + W/4, Y + 2H/3, W/2, H/3), it has a non-negative size and it lies
   * inside the face.
   */
  lemma MouthRegionOfFaceInFrame(frame: Size, face: Rect)
    requires 0 <= face.x && 0 <= face.y && 0 <= face.width && 0 <= face.height
    requires face.x + face.width <= frame.width && face.y + face.height <= frame.height
    ensures MouthRegion(frame, face)
         == Rect(face.x + face.width / 4, face.y + 2 * face.height / 3, face.width / 2, face.height / 3)
    ensures var r := MouthRegion(frame, face);
            0 <= r.width && 0 <= r.height &&
            face.x <= r.x && r.x + r.width <= face.x + face.width &&
            face.y <= r.y && r.y + r.height <= face.y + face.height
  {
  }
}
