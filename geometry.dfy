/** Points in the image plane, as the ofPoint values the tracker copies from the detector (z is never used). */
module Geometry {
  datatype Point = Point(x: real, y: real)

  const Origin := Point(0.0, 0.0)
}
