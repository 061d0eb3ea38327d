/**
  Client scenarios: what a caller of MbrIndex can conclude from the
  contracts of BuildTree and IntersectQuery alone.
 */
module Scenarios {
  import opened Geometry
  import opened PackedTree
  import opened Fragment

  /** Two unit squares and windows that touch both at a corner, and miss both. */
  method TouchingCorners2d() {
    var index := new MbrIndex();
    var mbrs := [[0.0, 1.0, 0.0, 1.0], [2.0, 3.0, 2.0, 3.0]];
    var status := index.BuildTree(mbrs, 2);
    assert status == MiOk;
    var e0 := Entry(Box2d(Point2d(0.0, 0.0), Point2d(1.0, 1.0)), 0);
    var e1 := Entry(Box2d(Point2d(2.0, 2.0), Point2d(3.0, 3.0)), 1);
    assert index.rtree2d == [e0, e1];
    var ids: seq<int>;
    status, ids := index.IntersectQuery([1.0, 2.0, 1.0, 2.0], []);
    assert Select([e1], Hits2d(Box2d(Point2d(1.0, 1.0), Point2d(2.0, 2.0)))) == [e1];
    assert status == MiOk && ids == [0, 1];
    status, ids := index.IntersectQuery([5.0, 6.0, 5.0, 6.0], []);
    assert Select([e1], Hits2d(Box2d(Point2d(5.0, 5.0), Point2d(6.0, 6.0)))) == [];
    assert status == MiOk && ids == [];
  }

  /** A fresh index refuses queries; an unsupported dimensionality leaves a built index queryable. */
  method DimensionGuard() {
    var index := new MbrIndex();
    var status, ids := index.IntersectQuery([], [7]);
    assert status == MiErr && ids == [7];
    status := index.BuildTree([[0.0, 1.0, 0.0, 1.0, 0.0, 1.0]], 3);
    status := index.BuildTree([], 4);
    assert status == MiErr && index.dimNum == 3;
    var cube := Entry(Box3d(Point3d(0.0, 0.0, 0.0), Point3d(1.0, 1.0, 1.0)), 0);
    assert index.rtree3d == [cube];
    status, ids := index.IntersectQuery([1.0, 1.0, 1.0, 1.0, 1.0, 1.0], []);
    assert Select([cube], Hits3d(Box3d(Point3d(1.0, 1.0, 1.0), Point3d(1.0, 1.0, 1.0)))) == [cube];
    assert status == MiOk && ids == [0];
  }

  /** An index built from no blocks answers every query successfully with no identities. */
  method EmptyTree() {
    var index := new MbrIndex();
    var status := index.BuildTree([], 2);
    var ids: seq<int>;
    status, ids := index.IntersectQuery([0.0, 9.0, 0.0, 9.0], []);
    assert status == MiOk && ids == [];
  }
}
