/** Values shared by the curve-processing components: points, table rows and
    a few facts about sequences of integer keys. */
module Common {

  datatype Option<T> = None | Some(value: T)

  /** A 2-D point: one (x, y) pair of a subpath. */
  datatype Point = Point(x: int, y: int)

  /** One decoded row of the flat path table: (path_id, subpath_id, x, y). */
  datatype Row = Row(pathId: int, subpathId: int, x: int, y: int)

  /** A subpath is an ordered run of points; a path an ordered run of subpaths. */
  type Subpath = seq<Point>
  type Path = seq<Subpath>

  /** Keys in strictly ascending order, hence also free of duplicates. */
  predicate StrictlyIncreasing(s: seq<int>)
  {
    forall i, j :: 0 <= i < j < |s| ==> s[i] < s[j]
  }

  /** The elements of a sequence, as a set. */
  function Elements<T>(s: seq<T>): set<T>
  {
    set x | x in s
  }

  /** Concatenation of a sequence of sequences, built from the back so that
      appending one more part is one unfolding. */
  function Concat<T>(ss: seq<seq<T>>): (r: seq<T>)
  {
    if ss == [] then [] else Concat(ss[..|ss| - 1]) + ss[|ss| - 1]
  }

  /** A strictly increasing sequence has as many distinct elements as entries. */
  lemma {:induction false} DistinctCardinality(s: seq<int>)
    requires StrictlyIncreasing(s)
    ensures |Elements(s)| == |s|
  {
    if s != [] {
      var init := s[..|s| - 1];
      DistinctCardinality(init);
      assert Elements(s) == Elements(init) + {s[|s| - 1]};
      assert s[|s| - 1] !in Elements(init) by {
        forall i | 0 <= i < |init| ensures init[i] != s[|s| - 1] {
          assert s[i] < s[|s| - 1];
        }
      }
    }
  }

  /** Two strictly increasing sequences with the same elements are equal:
      sorting the distinct keys leaves no choice. */
  lemma {:induction false} StrictlyIncreasingUnique(a: seq<int>, b: seq<int>)
    requires StrictlyIncreasing(a) && StrictlyIncreasing(b)
    requires Elements(a) == Elements(b)
    ensures a == b
  {
    DistinctCardinality(a);
    DistinctCardinality(b);
    if a != [] {
      // the first entry is the least element of both
      assert a[0] == b[0] by {
        assert a[0] in Elements(b);
        assert b[0] in Elements(a);
      }
      var a', b' := a[1..], b[1..];
      forall x ensures x in Elements(a') <==> x in Elements(b') {
        if x in Elements(a') {
          assert x in Elements(b) && x != b[0];
          var k :| 0 <= k < |b| && b[k] == x;
          assert k > 0;
          assert b'[k - 1] == x;
        }
        if x in Elements(b') {
          assert x in Elements(a) && x != a[0];
          var k :| 0 <= k < |a| && a[k] == x;
          assert k > 0;
          assert a'[k - 1] == x;
        }
      }
      StrictlyIncreasingUnique(a', b');
      assert a == [a[0]] + a' && b == [b[0]] + b';
    }
  }
}
