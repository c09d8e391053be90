/** Reconstruction of the path / subpath / point hierarchy from a flat table
    of rows (path_id, subpath_id, x, y), as `read_csv` does it: the distinct
    path ids in ascending order, inside each path the distinct subpath ids in
    ascending order, and inside each subpath the matching rows in table order. */
module PathTable {
  import opened Common

  /** Which of the two key columns a grouping step looks at. */
  datatype Column = PathColumn | SubpathColumn

  function Key(r: Row, c: Column): int
  {
    match c
    case PathColumn => r.pathId
    case SubpathColumn => r.subpathId
  }

  /** One key column of the table, row by row. */
  function Keys(rows: seq<Row>, c: Column): (ks: seq<int>)
    ensures |ks| == |rows|
    ensures forall i :: 0 <= i < |rows| ==> ks[i] == Key(rows[i], c)
  {
    if rows == [] then [] else Keys(rows[..|rows| - 1], c) + [Key(rows[|rows| - 1], c)]
  }

  /** Adds one key to a strictly increasing sequence of keys, keeping it so. */
  function InsertSorted(s: seq<int>, k: int): (r: seq<int>)
    requires StrictlyIncreasing(s)
    ensures StrictlyIncreasing(r)
    ensures Elements(r) == Elements(s) + {k}
  {
    if s == [] then [k]
    else if k < s[0] then [k] + s
    else if k == s[0] then s
    else
      var tail := InsertSorted(s[1..], k);
      assert Elements(s) == {s[0]} + Elements(s[1..]);
      assert forall i :: 0 <= i < |tail| ==> s[0] < tail[i] by {
        forall i | 0 <= i < |tail| ensures s[0] < tail[i] {
          assert tail[i] in Elements(s[1..]) + {k};
        }
      }
      assert Elements([s[0]] + tail) == {s[0]} + Elements(tail);
      [s[0]] + tail
  }

  /** The sorted distinct values of a key column (numpy's `unique`). */
  function Unique(s: seq<int>): (r: seq<int>)
    ensures StrictlyIncreasing(r)
    ensures Elements(r) == Elements(s)
  {
    if s == [] then []
    else
      assert Elements(s) == Elements(s[..|s| - 1]) + {s[|s| - 1]} by {
        assert s == s[..|s| - 1] + [s[|s| - 1]];
      }
      InsertSorted(Unique(s[..|s| - 1]), s[|s| - 1])
  }

  /** The rows whose key in column `c` is `k`, in table order (a boolean mask
      `table[table[:, c] == k]`). */
  function Select(rows: seq<Row>, c: Column, k: int): (s: seq<Row>)
    ensures |s| <= |rows|
    ensures forall j :: 0 <= j < |s| ==> Key(s[j], c) == k
  {
    if rows == [] then []
    else
      var init := Select(rows[..|rows| - 1], c, k);
      var last := rows[|rows| - 1];
      assert rows == rows[..|rows| - 1] + [last];
      if Key(last, c) == k then init + [last] else init
  }

  /** A selection holds exactly the table's rows with the key. */
  lemma {:induction false} SelectMembers(rows: seq<Row>, c: Column, k: int)
    ensures forall r :: r in Select(rows, c, k) <==> r in rows && Key(r, c) == k
  {
    if rows != [] {
      SelectMembers(rows[..|rows| - 1], c, k);
      assert rows == rows[..|rows| - 1] + [rows[|rows| - 1]];
    }
  }

  /** The rows whose key in column `c` is not `k`, in table order. */
  function Reject(rows: seq<Row>, c: Column, k: int): seq<Row>
  {
    if rows == [] then []
    else
      var init := Reject(rows[..|rows| - 1], c, k);
      var last := rows[|rows| - 1];
      if Key(last, c) != k then init + [last] else init
  }

  /** A rejection holds exactly the table's rows without the key. */
  lemma {:induction false} RejectMembers(rows: seq<Row>, c: Column, k: int)
    ensures forall r :: r in Reject(rows, c, k) <==> r in rows && Key(r, c) != k
  {
    if rows != [] {
      RejectMembers(rows[..|rows| - 1], c, k);
      assert rows == rows[..|rows| - 1] + [rows[|rows| - 1]];
    }
  }

  /** The trailing (x, y) columns of the rows, in order. */
  function Points(rows: seq<Row>): (ps: seq<Point>)
    ensures |ps| == |rows|
    ensures forall i :: 0 <= i < |rows| ==> ps[i] == Point(rows[i].x, rows[i].y)
  {
    if rows == [] then [] else Points(rows[..|rows| - 1]) + [Point(rows[|rows| - 1].x, rows[|rows| - 1].y)]
  }

  /** Reference definition of one subpath's rows: those with both ids. */
  function RowsWith(rows: seq<Row>, pathId: int, subpathId: int): (s: seq<Row>)
  {
    if rows == [] then []
    else
      var init := RowsWith(rows[..|rows| - 1], pathId, subpathId);
      var last := rows[|rows| - 1];
      if last.pathId == pathId && last.subpathId == subpathId then init + [last] else init
  }

  /** One point sequence per key of `ks`, each holding the rows with that key. */
  function Buckets(rows: seq<Row>, c: Column, ks: seq<int>): seq<seq<Point>>
  {
    if ks == [] then [] else Buckets(rows, c, ks[..|ks| - 1]) + [Points(Select(rows, c, ks[|ks| - 1]))]
  }

  /** The sorted distinct values of a key column are exactly the keys some
      row carries. */
  lemma UniqueKeys(rows: seq<Row>, c: Column)
    ensures forall k :: k in Unique(Keys(rows, c)) <==> exists r :: r in rows && Key(r, c) == k
  {
    var ks := Keys(rows, c);
    var u := Unique(ks);
    forall k ensures k in u <==> exists r :: r in rows && Key(r, c) == k {
      assert k in u <==> k in Elements(u);
      if k in Elements(ks) {
        var i :| 0 <= i < |ks| && ks[i] == k;
        assert rows[i] in rows;
      }
      if exists r :: r in rows && Key(r, c) == k {
        var r :| r in rows && Key(r, c) == k;
        var i :| 0 <= i < |rows| && rows[i] == r;
        assert ks[i] in Elements(ks);
      }
    }
  }

  /** The ascending distinct path ids of the table (`np.unique` of column 0). */
  function PathIds(rows: seq<Row>): (ids: seq<int>)
    ensures StrictlyIncreasing(ids)
    ensures forall k :: k in ids <==> exists r :: r in rows && r.pathId == k
  {
    UniqueKeys(rows, PathColumn);
    Unique(Keys(rows, PathColumn))
  }

  /** The ascending distinct subpath ids among the rows of path `i`. */
  function SubpathIds(rows: seq<Row>, i: int): (ids: seq<int>)
    ensures StrictlyIncreasing(ids)
    ensures forall k :: k in ids <==> exists r :: r in rows && r.pathId == i && r.subpathId == k
  {
    SubpathKeys(rows, i);
    Unique(Keys(Select(rows, PathColumn, i), SubpathColumn))
  }

  lemma SubpathKeys(rows: seq<Row>, i: int)
    ensures forall k :: k in Unique(Keys(Select(rows, PathColumn, i), SubpathColumn))
                    <==> exists r :: r in rows && r.pathId == i && r.subpathId == k
  {
    var sel := Select(rows, PathColumn, i);
    UniqueKeys(sel, SubpathColumn);
    SelectMembers(rows, PathColumn, i);
    var u := Unique(Keys(sel, SubpathColumn));
    forall k ensures k in u <==> exists r :: r in rows && r.pathId == i && r.subpathId == k {
      if exists r :: r in rows && r.pathId == i && r.subpathId == k {
        var r :| r in rows && r.pathId == i && r.subpathId == k;
        assert r in sel;
      }
    }
  }

  /** The path with id `i`: one subpath per subpath id, in ascending order. */
  function PathFor(rows: seq<Row>, i: int): Path
  {
    Buckets(Select(rows, PathColumn, i), SubpathColumn, SubpathIds(rows, i))
  }

  function PathsFor(rows: seq<Row>, ids: seq<int>): seq<Path>
  {
    if ids == [] then [] else PathsFor(rows, ids[..|ids| - 1]) + [PathFor(rows, ids[|ids| - 1])]
  }

  /** The value `read_csv` returns for a decoded table: one path per
      distinct path id, and none at all for an empty table. */
  function Group(rows: seq<Row>): (paths: seq<Path>)
    ensures |paths| == |PathIds(rows)|
    ensures paths == [] <==> rows == []
  {
    var ids := PathIds(rows);
    PathsForLength(rows, ids);
    assert rows != [] ==> rows[0].pathId in ids;
    PathsFor(rows, ids)
  }

  /** All points of all subpaths of all paths, in output order. */
  function Flatten(paths: seq<Path>): seq<Point>
  {
    if paths == [] then [] else Flatten(paths[..|paths| - 1]) + Concat(paths[|paths| - 1])
  }

  /** The grouping loops of `read_csv`: for each sorted distinct path id, for
      each sorted distinct subpath id among that path's rows, append the
      matching rows' (x, y) points. */
  method ReadCsv(rows: seq<Row>) returns (paths: seq<Path>)
    ensures paths == Group(rows)
  {
    paths := [];
    var ids := Unique(Keys(rows, PathColumn));
    var n := 0;
    while n < |ids|
      invariant 0 <= n <= |ids|
      invariant paths == PathsFor(rows, ids[..n])
    {
      var i := ids[n];
      var pathRows := Select(rows, PathColumn, i);
      var sids := Unique(Keys(pathRows, SubpathColumn));
      var subpaths: seq<Subpath> := [];
      var m := 0;
      while m < |sids|
        invariant 0 <= m <= |sids|
        invariant subpaths == Buckets(pathRows, SubpathColumn, sids[..m])
      {
        subpaths := subpaths + [Points(Select(pathRows, SubpathColumn, sids[m]))];
        m := m + 1;
        assert sids[..m][..m - 1] == sids[..m - 1];
      }
      assert sids[..m] == sids;
      paths := paths + [subpaths];
      n := n + 1;
      assert ids[..n][..n - 1] == ids[..n - 1];
    }
    assert ids[..n] == ids;
  }

  // ---------------------------------------------------------------------
  // Indexing the results

  lemma {:induction false} BucketsAt(rows: seq<Row>, c: Column, ks: seq<int>, m: int)
    requires 0 <= m < |ks|
    ensures |Buckets(rows, c, ks)| == |ks|
    ensures Buckets(rows, c, ks)[m] == Points(Select(rows, c, ks[m]))
  {
    BucketsLength(rows, c, ks);
    if m < |ks| - 1 {
      BucketsAt(rows, c, ks[..|ks| - 1], m);
    }
  }

  lemma {:induction false} BucketsLength(rows: seq<Row>, c: Column, ks: seq<int>)
    ensures |Buckets(rows, c, ks)| == |ks|
  {
    if ks != [] {
      BucketsLength(rows, c, ks[..|ks| - 1]);
    }
  }

  lemma {:induction false} PathsForAt(rows: seq<Row>, ids: seq<int>, n: int)
    requires 0 <= n < |ids|
    ensures |PathsFor(rows, ids)| == |ids|
    ensures PathsFor(rows, ids)[n] == PathFor(rows, ids[n])
  {
    PathsForLength(rows, ids);
    if n < |ids| - 1 {
      PathsForAt(rows, ids[..|ids| - 1], n);
    }
  }

  lemma {:induction false} PathsForLength(rows: seq<Row>, ids: seq<int>)
    ensures |PathsFor(rows, ids)| == |ids|
  {
    if ids != [] {
      PathsForLength(rows, ids[..|ids| - 1]);
    }
  }

  // ---------------------------------------------------------------------
  // The number and order of paths

  /** There is one path per distinct path id; an empty table, and only an
      empty table, gives no paths. */
  lemma PathCount(rows: seq<Row>)
    ensures |Group(rows)| == |Elements(Keys(rows, PathColumn))|
    ensures Group(rows) == [] <==> rows == []
  {
    var ids := PathIds(rows);
    PathsForLength(rows, ids);
    DistinctCardinality(ids);
    if rows != [] {
      assert Keys(rows, PathColumn)[0] in Elements(ids);
    }
  }

  /** Paths come out by strictly ascending path id, one for each distinct id
      of the table and none for any other value. */
  lemma GroupByAscendingPathId(rows: seq<Row>)
    ensures StrictlyIncreasing(PathIds(rows))
    ensures forall k :: k in PathIds(rows) <==> exists r :: r in rows && r.pathId == k
    ensures |Group(rows)| == |PathIds(rows)|
    ensures forall n :: 0 <= n < |PathIds(rows)| ==> Group(rows)[n] == PathFor(rows, PathIds(rows)[n])
  {
    var ids := PathIds(rows);
    PathsForLength(rows, ids);
    forall n | 0 <= n < |ids| ensures Group(rows)[n] == PathFor(rows, ids[n]) {
      PathsForAt(rows, ids, n);
    }
  }

  /** The order of the paths depends only on which rows the table holds,
      never on the order of its rows. */
  lemma PathOrderIgnoresRowOrder(rows: seq<Row>, rows': seq<Row>)
    requires multiset(rows) == multiset(rows')
    ensures PathIds(rows) == PathIds(rows')
    ensures |Group(rows)| == |Group(rows')|
  {
    KeysCovered(rows, rows', PathColumn);
    KeysCovered(rows', rows, PathColumn);
    StrictlyIncreasingUnique(PathIds(rows), PathIds(rows'));
    PathsForLength(rows, PathIds(rows));
    PathsForLength(rows', PathIds(rows'));
  }

  lemma KeysCovered(rows: seq<Row>, rows': seq<Row>, c: Column)
    requires multiset(rows) <= multiset(rows')
    ensures Elements(Keys(rows, c)) <= Elements(Keys(rows', c))
  {
    var ks, ks' := Keys(rows, c), Keys(rows', c);
    forall k | k in Elements(ks) ensures k in Elements(ks') {
      var i :| 0 <= i < |ks| && ks[i] == k;
      assert rows[i] in multiset(rows);
      var j :| 0 <= j < |rows'| && rows'[j] == rows[i];
      assert ks'[j] == k;
    }
  }

  // ---------------------------------------------------------------------
  // The subpaths of a path

  /** Selecting a path and then a subpath picks exactly the rows carrying
      both ids, in table order. */
  lemma {:induction false} SelectTwice(rows: seq<Row>, i: int, j: int)
    ensures Select(Select(rows, PathColumn, i), SubpathColumn, j) == RowsWith(rows, i, j)
  {
    if rows != [] {
      var init := rows[..|rows| - 1];
      SelectTwice(init, i, j);
      var pr := Select(rows, PathColumn, i);
      if rows[|rows| - 1].pathId == i {
        assert pr[..|pr| - 1] == Select(init, PathColumn, i);
      }
    }
  }

  /** A key that occurs in the table selects at least one row. */
  lemma SelectNonEmpty(rows: seq<Row>, c: Column, k: int)
    requires k in Elements(Keys(rows, c))
    ensures Select(rows, c, k) != []
  {
    var ks := Keys(rows, c);
    var i :| 0 <= i < |ks| && ks[i] == k;
    SelectMembers(rows, c, k);
    assert rows[i] in Select(rows, c, k);
  }

  /** Inside path `PathIds(rows)[n]` the subpaths follow the strictly ascending
      distinct subpath ids of that path, which are exactly the subpath ids its
      rows carry; each subpath is non-empty and holds exactly
      the (x, y) points of the rows with both ids, in table order. */
  lemma SubpathsOfPath(rows: seq<Row>, n: int)
    requires 0 <= n < |PathIds(rows)|
    ensures |Group(rows)| == |PathIds(rows)|
    ensures StrictlyIncreasing(SubpathIds(rows, PathIds(rows)[n]))
    ensures forall k :: k in SubpathIds(rows, PathIds(rows)[n]) <==>
      exists r :: r in rows && r.pathId == PathIds(rows)[n] && r.subpathId == k
    ensures Group(rows)[n] != []
    ensures |Group(rows)[n]| == |SubpathIds(rows, PathIds(rows)[n])|
    ensures forall m :: 0 <= m < |Group(rows)[n]| ==>
      Group(rows)[n][m] != [] &&
      Group(rows)[n][m] == Points(RowsWith(rows, PathIds(rows)[n], SubpathIds(rows, PathIds(rows)[n])[m]))
  {
    var ids := PathIds(rows);
    var i := ids[n];
    PathsForAt(rows, ids, n);
    var sids := SubpathIds(rows, i);
    PathForLength(rows, i);
    SelectNonEmpty(rows, PathColumn, i);
    assert Keys(Select(rows, PathColumn, i), SubpathColumn)[0] in Elements(sids);
    forall m | 0 <= m < |sids|
      ensures Group(rows)[n][m] != []
      ensures Group(rows)[n][m] == Points(RowsWith(rows, i, sids[m]))
    {
      SubpathAt(rows, i, m);
    }
  }

  /** The path with id `i` has one subpath per distinct subpath id of its rows. */
  lemma PathForLength(rows: seq<Row>, i: int)
    ensures |PathFor(rows, i)| == |SubpathIds(rows, i)|
  {
    BucketsLength(Select(rows, PathColumn, i), SubpathColumn, SubpathIds(rows, i));
  }

  /** Subpath `m` of the path with id `i` holds the points of the rows with
      both ids, and at least one. */
  lemma SubpathAt(rows: seq<Row>, i: int, m: int)
    requires 0 <= m < |SubpathIds(rows, i)|
    ensures |PathFor(rows, i)| == |SubpathIds(rows, i)|
    ensures PathFor(rows, i)[m] != []
    ensures PathFor(rows, i)[m] == Points(RowsWith(rows, i, SubpathIds(rows, i)[m]))
  {
    PathForLength(rows, i);
    var pr := Select(rows, PathColumn, i);
    var sids := SubpathIds(rows, i);
    BucketsAt(pr, SubpathColumn, sids, m);
    SelectTwice(rows, i, sids[m]);
    assert sids[m] in Elements(Keys(pr, SubpathColumn));
    SelectNonEmpty(pr, SubpathColumn, sids[m]);
  }

  // ---------------------------------------------------------------------
  // Nothing lost, nothing duplicated

  /** Splitting the rows on one key keeps every point exactly once. */
  lemma {:induction false} SplitPoints(rows: seq<Row>, c: Column, k: int)
    ensures multiset(Points(rows)) == multiset(Points(Select(rows, c, k))) + multiset(Points(Reject(rows, c, k)))
  {
    if rows != [] {
      var init, last := rows[..|rows| - 1], rows[|rows| - 1];
      var p := multiset{Point(last.x, last.y)};
      SplitPoints(init, c, k);
      var whole, ms, mr := multiset(Points(init)), multiset(Points(Select(init, c, k))), multiset(Points(Reject(init, c, k)));
      var whole', ms', mr' := multiset(Points(rows)), multiset(Points(Select(rows, c, k))), multiset(Points(Reject(rows, c, k)));
      assert whole' == whole + p by {
        assert Points(rows) == Points(init) + [Point(last.x, last.y)];
      }
      assert ms' + mr' == ms + mr + p by {
        if Key(last, c) == k {
          AddsPoint(Select(init, c, k), last, Select(rows, c, k));
          AddToSide(ms, mr, ms', p);
        } else {
          AddsPoint(Reject(init, c, k), last, Reject(rows, c, k));
          AddToSide(mr, ms, mr', p);
        }
      }
      Regroup(whole', whole, ms + mr, ms' + mr', p);
    }
  }

  lemma Regroup(w': multiset<Point>, w: multiset<Point>, parts: multiset<Point>, parts': multiset<Point>, p: multiset<Point>)
    requires w' == w + p && w == parts && parts' == parts + p
    ensures w' == parts'
  {
  }

  /** Adding a point to one side of a split adds it to the whole. */
  lemma AddToSide(a: multiset<Point>, b: multiset<Point>, a': multiset<Point>, p: multiset<Point>)
    requires a' == a + p
    ensures a' + b == a + b + p && b + a' == b + a + p
  {
  }

  lemma AddsPoint(rows: seq<Row>, last: Row, rows': seq<Row>)
    requires rows' == rows + [last]
    ensures multiset(Points(rows')) == multiset(Points(rows)) + multiset{Point(last.x, last.y)}
  {
    PointsAppend(rows, last);
  }

  lemma PointsAppend(rows: seq<Row>, r: Row)
    ensures Points(rows + [r]) == Points(rows) + [Point(r.x, r.y)]
  {
    assert (rows + [r])[..|rows|] == rows;
  }

  /** Rows rejected for one key still select the same rows for any other key. */
  lemma {:induction false} SelectAfterReject(rows: seq<Row>, c: Column, k0: int, k: int)
    requires k != k0
    ensures Select(Reject(rows, c, k0), c, k) == Select(rows, c, k)
  {
    if rows != [] {
      var init := rows[..|rows| - 1];
      SelectAfterReject(init, c, k0, k);
      var rj := Reject(rows, c, k0);
      if Key(rows[|rows| - 1], c) != k0 {
        assert rj[..|rj| - 1] == Reject(init, c, k0);
      }
    }
  }

  lemma {:induction false} BucketsAfterReject(rows: seq<Row>, c: Column, k0: int, ks: seq<int>)
    requires k0 !in ks
    ensures Buckets(Reject(rows, c, k0), c, ks) == Buckets(rows, c, ks)
  {
    if ks != [] {
      BucketsAfterReject(rows, c, k0, ks[..|ks| - 1]);
      SelectAfterReject(rows, c, k0, ks[|ks| - 1]);
    }
  }

  /** Bucketing on distinct keys that cover every row's key is a permutation
      of the rows' points. */
  lemma {:induction false} BucketsPermute(rows: seq<Row>, c: Column, ks: seq<int>)
    requires StrictlyIncreasing(ks)
    requires forall r :: r in rows ==> Key(r, c) in ks
    ensures multiset(Concat(Buckets(rows, c, ks))) == multiset(Points(rows))
    decreases |ks|
  {
    assert rows != [] ==> Key(rows[0], c) in ks;
    if ks != [] {
      var init, last := ks[..|ks| - 1], ks[|ks| - 1];
      var rest := Reject(rows, c, last);
      RestKeys(rows, c, ks);
      BucketsPermute(rest, c, init);
      BucketsAfterReject(rows, c, last, init);
      SplitPoints(rows, c, last);
      ConcatBucketsLast(rows, c, ks);
    }
  }

  /** Once the last key's rows are taken away, the remaining keys cover the rest. */
  lemma RestKeys(rows: seq<Row>, c: Column, ks: seq<int>)
    requires ks != [] && StrictlyIncreasing(ks)
    requires forall r :: r in rows ==> Key(r, c) in ks
    ensures StrictlyIncreasing(ks[..|ks| - 1])
    ensures ks[|ks| - 1] !in ks[..|ks| - 1]
    ensures forall r :: r in Reject(rows, c, ks[|ks| - 1]) ==> Key(r, c) in ks[..|ks| - 1]
  {
    var init, last := ks[..|ks| - 1], ks[|ks| - 1];
    assert ks == init + [last];
    RejectMembers(rows, c, last);
    forall i | 0 <= i < |init| ensures init[i] != last {
      assert ks[i] < ks[|ks| - 1];
    }
  }

  lemma ConcatBucketsLast(rows: seq<Row>, c: Column, ks: seq<int>)
    requires ks != []
    ensures Concat(Buckets(rows, c, ks))
         == Concat(Buckets(rows, c, ks[..|ks| - 1])) + Points(Select(rows, c, ks[|ks| - 1]))
  {
    var bs := Buckets(rows, c, ks);
    assert bs[..|bs| - 1] == Buckets(rows, c, ks[..|ks| - 1]);
  }

  /** The subpaths of one path hold exactly that path's points. */
  lemma PathPermutesItsRows(rows: seq<Row>, i: int)
    ensures multiset(Concat(PathFor(rows, i))) == multiset(Points(Select(rows, PathColumn, i)))
  {
    var pr := Select(rows, PathColumn, i);
    var sids := SubpathIds(rows, i);
    forall r | r in pr ensures Key(r, SubpathColumn) in sids {
      var ks := Keys(pr, SubpathColumn);
      var j :| 0 <= j < |pr| && pr[j] == r;
      assert ks[j] in Elements(ks);
    }
    BucketsPermute(pr, SubpathColumn, sids);
  }

  lemma {:induction false} PathsForPermute(rows: seq<Row>, ids: seq<int>)
    ensures multiset(Flatten(PathsFor(rows, ids))) == multiset(Concat(Buckets(rows, PathColumn, ids)))
  {
    if ids != [] {
      PathsForPermute(rows, ids[..|ids| - 1]);
      PathPermutesItsRows(rows, ids[|ids| - 1]);
      var ps := PathsFor(rows, ids);
      PathsForLength(rows, ids);
      assert ps[..|ps| - 1] == PathsFor(rows, ids[..|ids| - 1]);
    }
  }

  /** All subpaths of all paths, read in order, are a permutation of the
      table's (x, y) points: no row is dropped and none is duplicated. */
  lemma GroupPermutesPoints(rows: seq<Row>)
    ensures multiset(Flatten(Group(rows))) == multiset(Points(rows))
  {
    var ids := PathIds(rows);
    PathsForPermute(rows, ids);
    forall r | r in rows ensures Key(r, PathColumn) in ids {
      var ks := Keys(rows, PathColumn);
      var j :| 0 <= j < |rows| && rows[j] == r;
      assert ks[j] in Elements(ks);
    }
    BucketsPermute(rows, PathColumn, ids);
  }

  /** The worked table, row by row: two paths of one subpath each. */
  predicate IsExampleTable(rows: seq<Row>)
  {
    |rows| == 4 &&
    rows[0] == Row(0, 0, 1, 1) && rows[1] == Row(0, 0, 2, 2) &&
    rows[2] == Row(1, 0, 5, 5) && rows[3] == Row(1, 0, 6, 6)
  }

  lemma ExamplePathIds(rows: seq<Row>)
    requires IsExampleTable(rows)
    ensures PathIds(rows) == [0, 1]
  {
    var ks := Keys(rows, PathColumn);
    assert ks[0] == 0 && ks[3] == 1;
    forall x ensures x in Elements(ks) <==> x in Elements([0, 1]) {
      if x in Elements(ks) {
        var j :| 0 <= j < 4 && ks[j] == x;
      }
    }
    assert Elements(ks) == Elements([0, 1]);
    StrictlyIncreasingUnique(PathIds(rows), [0, 1]);
  }

  lemma ExampleSubpathIds(rows: seq<Row>, i: int)
    requires IsExampleTable(rows)
    requires i == 0 || i == 1
    ensures SubpathIds(rows, i) == [0]
  {
    var ids := SubpathIds(rows, i);
    assert rows[2 * i] in rows;
    assert 0 in ids;
    assert forall r :: r in rows ==> r.subpathId == 0 by {
      forall r | r in rows ensures r.subpathId == 0 {
        var j :| 0 <= j < |rows| && rows[j] == r;
      }
    }
    assert Elements(ids) == Elements([0]);
    StrictlyIncreasingUnique(ids, [0]);
  }

  lemma ExampleSubpathRows(rows: seq<Row>)
    requires IsExampleTable(rows)
    ensures Points(RowsWith(rows, 0, 0)) == [Point(1, 1), Point(2, 2)]
    ensures Points(RowsWith(rows, 1, 0)) == [Point(5, 5), Point(6, 6)]
  {
    assert rows[..1][..0] == [];
    assert RowsWith(rows[..1], 0, 0) == rows[..1];
    assert RowsWith(rows[..1], 1, 0) == [];
    assert rows[..2][..1] == rows[..1];
    assert RowsWith(rows[..2], 0, 0) == rows[..2];
    assert RowsWith(rows[..2], 1, 0) == [];
    assert rows[..3][..2] == rows[..2];
    assert RowsWith(rows[..3], 0, 0) == rows[..2];
    assert RowsWith(rows[..3], 1, 0) == [rows[2]];
    assert rows[..3] == rows[..|rows| - 1];
    assert RowsWith(rows, 0, 0) == rows[..2];
    assert RowsWith(rows, 1, 0) == rows[2..];
  }

  /** The worked table: two paths, in path-id order, each with one subpath
      of two points. */
  lemma TwoPathExample(rows: seq<Row>)
    requires IsExampleTable(rows)
    ensures Group(rows) == [[[Point(1, 1), Point(2, 2)]], [[Point(5, 5), Point(6, 6)]]]
  {
    ExamplePath(rows, 0);
    ExamplePath(rows, 1);
    ExampleSubpathRows(rows);
  }

  /** Path `n` of the worked table is the single subpath of the rows with
      path id `n`. */
  lemma ExamplePath(rows: seq<Row>, n: int)
    requires IsExampleTable(rows)
    requires n == 0 || n == 1
    ensures |Group(rows)| == 2
    ensures Group(rows)[n] == [Points(RowsWith(rows, n, 0))]
  {
    ExamplePathIds(rows);
    ExampleSubpathIds(rows, n);
    SingletonPath(rows, n, 0);
  }

  /** A path with a single subpath id consists of that one subpath. */
  lemma SingletonPath(rows: seq<Row>, n: int, j: int)
    requires 0 <= n < |PathIds(rows)|
    requires SubpathIds(rows, PathIds(rows)[n]) == [j]
    ensures |Group(rows)| == |PathIds(rows)|
    ensures Group(rows)[n] == [Points(RowsWith(rows, PathIds(rows)[n], j))]
  {
    SubpathsOfPath(rows, n);
  }
}
