/**
  Points and axis-aligned boxes in two and three dimensions, the closed
  "intersects" relation between boxes, and the flat coordinate blocks that
  callers of the index hand over.

  A block is laid out coordinate-major: `[min_0, max_0, min_1, max_1(, min_2, max_2)]`.
  Coordinates are only copied and compared, so they are modelled as `real`.
 */
module Geometry {

  datatype Point2d = Point2d(x: real, y: real)
  datatype Point3d = Point3d(x: real, y: real, z: real)

  /** A box is its min corner and its max corner, stored as given (never normalised). */
  datatype Box2d = Box2d(minCorner: Point2d, maxCorner: Point2d)
  datatype Box3d = Box3d(minCorner: Point3d, maxCorner: Point3d)

  /** Number of coordinates a block holds for each dimensionality. */
  const BLOCK_LEN_2D: nat := 4
  const BLOCK_LEN_3D: nat := 6

  /** The box is not inverted on any axis. */
  predicate Proper2d(b: Box2d) {
    b.minCorner.x <= b.maxCorner.x && b.minCorner.y <= b.maxCorner.y
  }

  predicate Proper3d(b: Box3d) {
    b.minCorner.x <= b.maxCorner.x && b.minCorner.y <= b.maxCorner.y && b.minCorner.z <= b.maxCorner.z
  }

  /** Closed overlap on every axis: boxes that only touch at an edge or a corner intersect. */
  predicate Intersects2d(a: Box2d, b: Box2d) {
    && a.minCorner.x <= b.maxCorner.x && b.minCorner.x <= a.maxCorner.x
    && a.minCorner.y <= b.maxCorner.y && b.minCorner.y <= a.maxCorner.y
  }

  predicate Intersects3d(a: Box3d, b: Box3d) {
    && a.minCorner.x <= b.maxCorner.x && b.minCorner.x <= a.maxCorner.x
    && a.minCorner.y <= b.maxCorner.y && b.minCorner.y <= a.maxCorner.y
    && a.minCorner.z <= b.maxCorner.z && b.minCorner.z <= a.maxCorner.z
  }

  /** The box a 2D block stands for: min corner (b[0], b[2]), max corner (b[1], b[3]). */
  function DecodeBox2d(block: seq<real>): Box2d
    requires |block| >= BLOCK_LEN_2D
  {
    Box2d(Point2d(block[0], block[2]), Point2d(block[1], block[3]))
  }

  /** The box a 3D block stands for: min corner (b[0], b[2], b[4]), max corner (b[1], b[3], b[5]). */
  function DecodeBox3d(block: seq<real>): Box3d
    requires |block| >= BLOCK_LEN_3D
  {
    Box3d(Point3d(block[0], block[2], block[4]), Point3d(block[1], block[3], block[5]))
  }

  /** The block a caller would pass for a box: the inverse of the decoder. */
  function EncodeBox2d(b: Box2d): (block: seq<real>)
    ensures |block| == BLOCK_LEN_2D
  {
    [b.minCorner.x, b.maxCorner.x, b.minCorner.y, b.maxCorner.y]
  }

  function EncodeBox3d(b: Box3d): (block: seq<real>)
    ensures |block| == BLOCK_LEN_3D
  {
    [b.minCorner.x, b.maxCorner.x, b.minCorner.y, b.maxCorner.y, b.minCorner.z, b.maxCorner.z]
  }

  lemma DecodeEncode2d(b: Box2d)
    ensures DecodeBox2d(EncodeBox2d(b)) == b
  {
  }

  lemma DecodeEncode3d(b: Box3d)
    ensures DecodeBox3d(EncodeBox3d(b)) == b
  {
  }

  /** Decoding reads exactly the first 2*dim values of a block and loses none of them. */
  lemma EncodeDecode2d(block: seq<real>)
    requires |block| >= BLOCK_LEN_2D
    ensures EncodeBox2d(DecodeBox2d(block)) == block[..BLOCK_LEN_2D]
  {
  }

  lemma EncodeDecode3d(block: seq<real>)
    requires |block| >= BLOCK_LEN_3D
    ensures EncodeBox3d(DecodeBox3d(block)) == block[..BLOCK_LEN_3D]
  {
  }

  /** No normalisation: a decoded box is proper exactly when each min value of the block is at most its max value. */
  lemma DecodedProper2d(block: seq<real>)
    requires |block| >= BLOCK_LEN_2D
    ensures Proper2d(DecodeBox2d(block)) <==> block[0] <= block[1] && block[2] <= block[3]
  {
  }

  lemma DecodedProper3d(block: seq<real>)
    requires |block| >= BLOCK_LEN_3D
    ensures Proper3d(DecodeBox3d(block)) <==> block[0] <= block[1] && block[2] <= block[3] && block[4] <= block[5]
  {
  }

  /** A box intersects itself exactly when it is not inverted on any axis. */
  lemma SelfIntersects2d(b: Box2d)
    ensures Intersects2d(b, b) <==> Proper2d(b)
  {
  }

  lemma SelfIntersects3d(b: Box3d)
    ensures Intersects3d(b, b) <==> Proper3d(b)
  {
  }

  lemma IntersectsSymmetric2d(a: Box2d, b: Box2d)
    ensures Intersects2d(a, b) <==> Intersects2d(b, a)
  {
  }

  lemma IntersectsSymmetric3d(a: Box3d, b: Box3d)
    ensures Intersects3d(a, b) <==> Intersects3d(b, a)
  {
  }
}
