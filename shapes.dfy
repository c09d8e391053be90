/** The vertex-count heuristic of `identify_shapes_from_image`: each contour's
    approximating polygon is classed by its number of vertices, and the
    classes found are collected into a set. Contour extraction and polygon
    approximation are image-library calls; their output is the input here. */
module Shapes {
  import opened Common

  datatype Shape = Triangle | Rectangle | Circle

  /** The vertices of one contour's approximating polygon. */
  type Polygon = seq<Point>

  /** Exactly four vertices is a rectangle, more is a circle, fewer (down to
      none at all) is a triangle. */
  function Classify(vertices: nat): (s: Shape)
    ensures s == Rectangle <==> vertices == 4
    ensures s == Circle <==> vertices > 4
    ensures s == Triangle <==> vertices < 4
  {
    if vertices == 4 then Rectangle
    else if vertices > 4 then Circle
    else Triangle
  }

  /** The set of classes over all contours. */
  function ShapesOf(approx: seq<Polygon>): (shapes: set<Shape>)
    ensures forall s :: s in shapes <==> exists k :: 0 <= k < |approx| && Classify(|approx[k]|) == s
  {
    if approx == [] then {}
    else
      var init := approx[..|approx| - 1];
      var rest := ShapesOf(init);
      assert forall k :: 0 <= k < |init| ==> approx[k] == init[k];
      rest + {Classify(|approx[|approx| - 1]|)}
  }

  /** The classification loop: one class added per contour. */
  method IdentifyShapes(approx: seq<Polygon>) returns (shapes: set<Shape>)
    ensures shapes == ShapesOf(approx)
  {
    shapes := {};
    for k := 0 to |approx|
      invariant shapes == ShapesOf(approx[..k])
    {
      assert approx[..k + 1][..k] == approx[..k];
      var n := |approx[k]|;
      if n == 4 {
        shapes := shapes + {Rectangle};
      } else if n > 4 {
        shapes := shapes + {Circle};
      } else {
        shapes := shapes + {Triangle};
      }
    }
    assert approx[..|approx|] == approx;
  }

  // ---------------------------------------------------------------------
  // Properties

  /** No contours, and only no contours, give no shapes. */
  lemma ShapesEmptyIff(approx: seq<Polygon>)
    ensures ShapesOf(approx) == {} <==> approx == []
  {
    if approx != [] {
      assert Classify(|approx[0]|) in ShapesOf(approx);
    }
  }

  /** Counts are discarded: at most one entry per class. */
  lemma AtMostThree(approx: seq<Polygon>)
    ensures |ShapesOf(approx)| <= 3
  {
    var all := {Triangle, Rectangle, Circle};
    forall s | s in ShapesOf(approx) ensures s in all {
      match s
      case Triangle =>
      case Rectangle =>
      case Circle =>
    }
    SubsetCardinality(ShapesOf(approx), all);
  }

  lemma {:induction false} SubsetCardinality(a: set<Shape>, b: set<Shape>)
    requires a <= b
    ensures |a| <= |b|
    decreases |b|
  {
    if a != {} {
      var s :| s in a;
      SubsetCardinality(a - {s}, b - {s});
    }
  }

  /** The result depends only on which vertex counts occur: reordering the
      contours, or adding or removing repeats of a count, changes nothing. */
  lemma IgnoresOrderAndRepeats(approx: seq<Polygon>, approx': seq<Polygon>)
    requires forall k :: 0 <= k < |approx| ==> HasVertexCount(approx', |approx[k]|)
    requires forall m :: 0 <= m < |approx'| ==> HasVertexCount(approx, |approx'[m]|)
    ensures ShapesOf(approx) == ShapesOf(approx')
  {
    forall s | s in ShapesOf(approx) ensures s in ShapesOf(approx') {
      var k :| 0 <= k < |approx| && Classify(|approx[k]|) == s;
      assert HasVertexCount(approx', |approx[k]|);
      var m :| 0 <= m < |approx'| && |approx'[m]| == |approx[k]|;
      assert Classify(|approx'[m]|) == s;
    }
    forall s | s in ShapesOf(approx') ensures s in ShapesOf(approx) {
      var m :| 0 <= m < |approx'| && Classify(|approx'[m]|) == s;
      assert HasVertexCount(approx, |approx'[m]|);
      var k :| 0 <= k < |approx| && |approx[k]| == |approx'[m]|;
      assert Classify(|approx[k]|) == s;
    }
  }

  /** Some contour's polygon has exactly `n` vertices. */
  predicate HasVertexCount(approx: seq<Polygon>, n: nat)
  {
    exists m :: 0 <= m < |approx| && |approx[m]| == n
  }

  /** In particular, any permutation of the contours gives the same set. */
  lemma IgnoresPermutation(approx: seq<Polygon>, approx': seq<Polygon>)
    requires multiset(approx) == multiset(approx')
    ensures ShapesOf(approx) == ShapesOf(approx')
  {
    OccursIn(approx, approx');
    OccursIn(approx', approx);
    IgnoresOrderAndRepeats(approx, approx');
  }

  /** Every contour of the first list has a twin in the second. */
  lemma OccursIn(approx: seq<Polygon>, approx': seq<Polygon>)
    requires multiset(approx) <= multiset(approx')
    ensures forall k :: 0 <= k < |approx| ==> HasVertexCount(approx', |approx[k]|)
  {
    forall k | 0 <= k < |approx| ensures HasVertexCount(approx', |approx[k]|) {
      assert approx[k] in multiset(approx');
      assert approx[k] in approx';
      var m :| 0 <= m < |approx'| && approx'[m] == approx[k];
      assert |approx'[m]| == |approx[k]|;
    }
  }

  /** A single clean quadrilateral contour is reported as a rectangle. */
  lemma OneQuadrilateral(quad: Polygon)
    requires |quad| == 4
    ensures ShapesOf([quad]) == {Rectangle}
  {
  }

  /** One circle-like and several triangle-like contours give exactly the
      two classes, whatever the number of triangles. */
  lemma TrianglesAndCircle(approx: seq<Polygon>, round: Polygon)
    requires approx != [] && forall k :: 0 <= k < |approx| ==> |approx[k]| == 3
    requires |round| > 4
    ensures ShapesOf(approx + [round]) == {Triangle, Circle}
    ensures |ShapesOf(approx + [round])| == 2
  {
    var all := approx + [round];
    assert Classify(|all[0]|) == Triangle;
    assert Classify(|all[|approx|]|) == Circle;
    forall s | s in ShapesOf(all) ensures s == Triangle || s == Circle {
      var k :| 0 <= k < |all| && Classify(|all[k]|) == s;
      if k < |approx| {
        assert all[k] == approx[k];
      }
    }
  }
}
