/** The coordinate transform and colour choice of `plot_transformed`: every
    subpath of every path is mirrored (x negated) and then rotated by 180
    degrees (both coordinates negated), and drawn as a line strip in the
    colour the path's index picks from a seven-entry palette. */
module Transform {
  import opened Common

  /** Horizontal mirror: the x column negated in place, y untouched; doing it
      twice restores the point. */
  function Mirror(p: Point): (q: Point)
    ensures q.x == -p.x && q.y == p.y
  {
    Point(-p.x, p.y)
  }

  /** Rotation by 180 degrees about the origin: the whole point negated;
      rotating twice is a full turn. */
  function Rotate180(p: Point): (q: Point)
    ensures q.x == -p.x && q.y == -p.y
  {
    Point(-p.x, -p.y)
  }

  /** Each stage undoes itself, and the two commute. */
  lemma StagesInvolutions(p: Point)
    ensures Mirror(Mirror(p)) == p
    ensures Rotate180(Rotate180(p)) == p
    ensures Mirror(Rotate180(p)) == Rotate180(Mirror(p))
  {
  }

  /** The two stages in order; together they leave x alone and negate y. */
  function TransformPoint(p: Point): (q: Point)
    ensures q == Point(p.x, -p.y)
  {
    Rotate180(Mirror(p))
  }

  /** Applying the transform twice gives back the original point. */
  lemma TransformPointInvolution(p: Point)
    ensures TransformPoint(TransformPoint(p)) == p
  {
  }

  /** The transform applied to every point of one subpath, in order. */
  function TransformPoints(xy: Subpath): (r: Subpath)
    ensures |r| == |xy|
    ensures forall k :: 0 <= k < |xy| ==> r[k] == Point(xy[k].x, -xy[k].y)
  {
    if xy == [] then [] else TransformPoints(xy[..|xy| - 1]) + [TransformPoint(xy[|xy| - 1])]
  }

  /** One subpath as `plot_transformed` treats it: copy it, negate the x
      column of the copy in place, then negate the whole copy. */
  method TransformSubpath(xy: Subpath) returns (rotated: Subpath)
    ensures rotated == TransformPoints(xy)
  {
    var flipped := new Point[|xy|](i requires 0 <= i < |xy| => xy[i]);
    var k := 0;
    while k < flipped.Length
      invariant 0 <= k <= flipped.Length
      invariant forall i :: 0 <= i < k ==> flipped[i] == Mirror(xy[i])
      invariant forall i :: k <= i < flipped.Length ==> flipped[i] == xy[i]
    {
      flipped[k] := Point(-flipped[k].x, flipped[k].y);
      k := k + 1;
    }
    rotated := seq(flipped.Length, i requires 0 <= i < flipped.Length reads flipped => Rotate180(flipped[i]));
  }

  /** The matplotlib colour letters 'b', 'g', 'r', 'c', 'm', 'y', 'k'. */
  datatype Colour = Blue | Green | Red | Cyan | Magenta | Yellow | Black

  const Palette: seq<Colour> := [Blue, Green, Red, Cyan, Magenta, Yellow, Black]

  /** The palette entry of the path with index `i`. */
  function PaletteIndex(i: nat): (c: nat)
    ensures c < |Palette| == 7
    ensures i < 7 ==> c == i
    ensures i >= 7 ==> c == PaletteIndex(i - 7)
  {
    i % |Palette|
  }

  /** The colour of path `i`: palette entry `i` for the first seven paths,
      then the same cycle again. */
  function PathColour(i: nat): (c: Colour)
    ensures c in Palette
    ensures i < 7 ==> c == Palette[i]
    ensures i >= 7 ==> c == PathColour(i - 7)
  {
    Palette[PaletteIndex(i)]
  }

  /** One `ax.plot` call: a line strip through the points, in one colour. */
  datatype Line = Line(colour: Colour, points: seq<Point>)

  /** The line strips drawn for path number `i`, one per subpath. */
  function PathLines(i: nat, subpaths: Path): (ls: seq<Line>)
    ensures |ls| == |subpaths|
    ensures forall j :: 0 <= j < |subpaths| ==>
      ls[j].colour == PathColour(i) && |ls[j].points| == |subpaths[j]|
  {
    seq(|subpaths|, j requires 0 <= j < |subpaths| => Line(PathColour(i), TransformPoints(subpaths[j])))
  }

  /** The line strips drawn for every path, grouped by path. */
  function Drawing(paths: seq<Path>): (d: seq<seq<Line>>)
    ensures |d| == |paths|
    ensures forall i :: 0 <= i < |paths| ==> |d[i]| == |paths[i]|
    ensures forall i, j :: 0 <= i < |paths| && 0 <= j < |paths[i]| ==>
      d[i][j].colour == Palette[i % 7] && |d[i][j].points| == |paths[i][j]| &&
      forall k :: 0 <= k < |paths[i][j]| ==> d[i][j].points[k] == Point(paths[i][j][k].x, -paths[i][j][k].y)
  {
    seq(|paths|, i requires 0 <= i < |paths| => PathLines(i, paths[i]))
  }

  /** The paths with every point transformed. */
  function TransformPaths(paths: seq<Path>): seq<Path>
  {
    seq(|paths|, i requires 0 <= i < |paths| =>
      seq(|paths[i]|, j requires 0 <= j < |paths[i]| => TransformPoints(paths[i][j])))
  }

  /** The drawing loop of `plot_transformed`: paths in order, each subpath
      transformed and drawn in its path's colour. */
  method PlotTransformed(paths: seq<Path>) returns (lines: seq<Line>)
    ensures lines == Concat(Drawing(paths))
  {
    lines := [];
    ghost var drawing := Drawing(paths);
    var i := 0;
    while i < |paths|
      invariant 0 <= i <= |paths|
      invariant lines == Concat(drawing[..i])
    {
      var c := Palette[i % |Palette|];
      var subpaths := paths[i];
      ghost var before := lines;
      var j := 0;
      while j < |subpaths|
        invariant 0 <= j <= |subpaths|
        invariant lines == before + drawing[i][..j]
      {
        var rotated := TransformSubpath(subpaths[j]);
        lines := lines + [Line(c, rotated)];
        j := j + 1;
        assert drawing[i][..j] == drawing[i][..j - 1] + [drawing[i][j - 1]];
      }
      assert drawing[i][..j] == drawing[i];
      i := i + 1;
      assert drawing[..i][..i - 1] == drawing[..i - 1];
    }
    assert drawing[..i] == drawing;
  }

  // ---------------------------------------------------------------------
  // Properties

  /** Transforming a subpath twice gives it back. */
  lemma TransformPointsInvolution(xy: Subpath)
    ensures TransformPoints(TransformPoints(xy)) == xy
  {
  }

  /** The transform keeps the number of paths, of subpaths in each path and of
      points in each subpath, and the order of the points; it changes only
      the coordinates, each point (x, y) becoming (x, -y). */
  lemma TransformKeepsStructure(paths: seq<Path>)
    ensures |TransformPaths(paths)| == |paths|
    ensures forall i :: 0 <= i < |paths| ==>
      |TransformPaths(paths)[i]| == |paths[i]| &&
      forall j :: 0 <= j < |paths[i]| ==>
        |TransformPaths(paths)[i][j]| == |paths[i][j]| &&
        forall k :: 0 <= k < |paths[i][j]| ==>
          TransformPaths(paths)[i][j][k] == Point(paths[i][j][k].x, -paths[i][j][k].y)
  {
  }

  /** Transforming all paths twice returns them unchanged. */
  lemma TransformPathsInvolution(paths: seq<Path>)
    ensures TransformPaths(TransformPaths(paths)) == paths
  {
    var t := TransformPaths(paths);
    forall i | 0 <= i < |paths| ensures TransformPaths(t)[i] == paths[i] {
      forall j | 0 <= j < |paths[i]| ensures TransformPaths(t)[i][j] == paths[i][j] {
        TransformPointsInvolution(paths[i][j]);
      }
    }
  }

  /** Every line of path `i` is drawn in palette entry `i mod 7`, whichever
      subpath it comes from, through that subpath's transformed points. */
  lemma LineColours(paths: seq<Path>, i: nat, j: nat)
    requires i < |paths| && j < |paths[i]|
    ensures |Drawing(paths)| == |paths| && |Drawing(paths)[i]| == |paths[i]|
    ensures Drawing(paths)[i][j].colour == Palette[i % 7]
    ensures Drawing(paths)[i][j].points == TransformPaths(paths)[i][j]
  {
  }

  /** The number of lines drawn is the total number of subpaths. */
  lemma {:induction false} LineCount(paths: seq<Path>)
    ensures |Concat(Drawing(paths))| == SubpathCount(paths)
  {
    if paths != [] {
      var n := |paths| - 1;
      LineCount(paths[..n]);
      assert Drawing(paths)[..n] == Drawing(paths[..n]);
    }
  }

  function SubpathCount(paths: seq<Path>): nat
  {
    if paths == [] then 0 else SubpathCount(paths[..|paths| - 1]) + |paths[|paths| - 1]|
  }
}
