# Curvetopia core, modelled in Dafny

Curvetopia is a small web application for hand-drawn curves. A user
uploads a flat table of points, and the application does three things:

- it regroups the points into paths made of subpaths;
- it draws them mirrored and rotated, one colour per path;
- it classes the contours of an uploaded image as triangles, rectangles or
  circles.

Before any of this, an upload's file name has to pass an extension filter.
This project models those four pieces of logic and proves their
properties.

- `common.dfy` (module `Common`) holds the values they share:
  - points, table rows, subpaths and paths;
  - `Option`;
  - facts about strictly increasing key sequences.
- `path_table.dfy` (module `PathTable`) covers `read_csv`. A decoded table is
  a sequence of `Row(pathId, subpathId, x, y)`, and the model regroups it:
  - one path per distinct path id, in ascending order;
  - inside a path, one subpath per distinct subpath id, in ascending order;
  - inside a subpath, the (x, y) points of the matching rows, in table order.

  `ReadCsv` is the nested loop of the source, proved equal to the function
  `Group`. The lemmas cover:
  - the count and order of the paths;
  - what each subpath holds;
  - that the whole result is a permutation of the table's points;
  - that row order does not affect path order;
  - a two-path worked example.
- `transform.dfy` (module `Transform`) covers `plot_transformed`. Each subpath
  is copied into an array. The copy's x column is negated in place, and then
  the whole copy is negated. Each resulting line strip is coloured by its
  path's index into a seven-entry palette. The model records the drawing as
  a sequence of `Line(colour, points)`, one for each `ax.plot` call.
- `shapes.dfy` (module `Shapes`) covers the classification loop of
  `identify_shapes_from_image`. The input is the list of approximating
  polygons. Four vertices make a rectangle, more than four a circle, and
  fewer a triangle; the classes found are collected into a set.
- `upload.dfy` (module `Upload`) covers `allowed_file`. The name needs a dot,
  and the text after its last dot, lower-cased, must be one of `csv`, `svg`,
  `png` or `xlsx`.

Coordinates are modelled as integers. Every operation involved only copies,
compares or negates them, so nothing the model states depends on their
being floats.

## Model

| member | source | states |
|---|---|---|
| PathTable.ReadCsv | app.py:64-75 | The nested grouping loops return exactly `Group(rows)`: one path per sorted distinct path id, one subpath per sorted distinct subpath id of that path, and each subpath holds the points of its rows. |
| PathTable.Unique | app.py:68 | `np.unique` of a key column: the result is strictly ascending, so it has no duplicates, and holds exactly the values of the column. |
| PathTable.Points | app.py:69-72 | Dropping the two id columns (`[:, 1:]` twice) keeps one (x, y) point per row, in row order. |
| PathTable.Keys | app.py:68-71 | The key-column slice `[:, 0]` has one entry per row, in row order, each that row's key. |
| PathTable.Select | app.py:69-72 | The boolean mask `table[table[:, 0] == k]` is no longer than the table, and every row it keeps carries key `k`. |
| PathTable.UniqueKeys | app.py:68-71 | The sorted distinct values of a key column are exactly the keys that some row carries. |
| PathTable.PathIds | app.py:68 | The path ids iterated over are strictly ascending. An id occurs among them exactly when some row carries it. |
| PathTable.SubpathKeys | app.py:69-71 | The distinct subpath keys of path `i`'s masked rows are exactly the subpath ids that rows with path id `i` carry. |
| PathTable.SubpathIds | app.py:71 | The subpath ids iterated over inside path `i` are strictly ascending. An id occurs among them exactly when some row carries path id `i` and that subpath id. |
| PathTable.PathForLength | app.py:70-73 | The inner loop's list for path `i` has one subpath per distinct subpath id of that path. |
| PathTable.SubpathAt | app.py:71-73 | Subpath `m` of path `i` is non-empty and holds exactly the points of the rows carrying id `i` and the `m`-th subpath id, in table order. |
| PathTable.Group | app.py:64-75 | The value returned has one path per distinct path id, and it is empty exactly when the table is empty. |
| PathTable.PathCount | app.py:68-74 | There are as many paths as distinct path ids. An empty table, and only an empty table, gives no paths. |
| PathTable.GroupByAscendingPathId | app.py:68-74 | The path ids used are strictly ascending. An id is used exactly when some row carries it. Path `n` is the path built for the `n`-th id. |
| PathTable.PathOrderIgnoresRowOrder | app.py:68 | Two tables holding the same rows in any order give the same path ids in the same order, and the same number of paths. |
| PathTable.SelectTwice | app.py:69-72 | Masking by path id and then by subpath id selects exactly the rows carrying both ids, in table order. |
| PathTable.SelectMembers | app.py:69-72 | The mask keeps exactly the table's rows with that key: a row is kept if and only if it is in the table and carries the key. |
| PathTable.SelectNonEmpty | app.py:68-69 | A key taken from the column selects at least one row. |
| PathTable.SubpathsOfPath | app.py:69-73 | In each path, the subpaths follow the path's strictly ascending distinct subpath ids, which are exactly the subpath ids that the path's rows carry. The path is non-empty, and so is each of its subpaths. Each subpath equals the points of the rows that carry both ids. |
| PathTable.SingletonPath | app.py:69-74 | A path with a single subpath id consists of exactly that one subpath. |
| PathTable.SplitPoints | app.py:69 | The rows a mask keeps and the rows it drops (`Reject`, a proof device the source never computes) split the table's points into two parts whose multisets add up to the whole. This is the step behind the permutation results below. |
| PathTable.BucketsPermute | app.py:71-73 | One bucket per key, over distinct keys covering every row, holds all the rows' points: nothing is lost or duplicated. |
| PathTable.PathPermutesItsRows | app.py:69-73 | The subpaths of a path together hold exactly the points of that path's rows. |
| PathTable.GroupPermutesPoints | app.py:66-75 | The flattened result is a permutation of the table's points: every row lands in exactly one subpath. |
| PathTable.ExamplePathIds | app.py:68 | The worked four-row table has path ids `[0, 1]`. |
| PathTable.ExampleSubpathIds | app.py:71 | Each path of the worked table has subpath ids `[0]`. |
| PathTable.ExamplePath | app.py:67-74 | Path `n` of the worked table is the single subpath made of the rows with path id `n`. |
| PathTable.TwoPathExample | app.py:64-75 | The worked table groups into `[[[(1,1),(2,2)]], [[(5,5),(6,6)]]]`. |
| Transform.Mirror | app.py:90-91 | The sideways flip negates the x column and leaves y untouched. |
| Transform.Rotate180 | app.py:93-94 | The 180-degree rotation negates both coordinates. |
| Transform.StagesInvolutions | app.py:89-94 | Each of the two stages undoes itself, and the two stages commute. |
| Transform.TransformPoint | app.py:89-94 | Mirroring and then rotating by 180 degrees keeps x and negates y. |
| Transform.TransformPointInvolution | app.py:89-94 | Transforming a point twice gives it back. |
| Transform.TransformPoints | app.py:89-94 | A transformed subpath has the same length, and point `k` becomes `(x_k, -y_k)`. |
| Transform.TransformSubpath | app.py:89-94 | The copy / in-place x-negation / full-negation sequence on an array yields exactly the transformed subpath. |
| Transform.TransformPointsInvolution | app.py:89-94 | Transforming a subpath twice gives it back. |
| Transform.PaletteIndex | app.py:84-87 | The colour index is below the palette size of 7. It is the path index itself for the first seven paths, and repeats with period 7 after that. |
| Transform.PathColour | app.py:84-87 | The colour of path `i` is a palette entry. It is entry `i` for the first seven paths, and path `i + 7` has the colour of path `i`. |
| Transform.PathLines | app.py:88-96 | Path `i` is drawn as one line per subpath, each in the path's colour and through as many points as its subpath has. |
| Transform.Drawing | app.py:86-96 | There is one line group per path and one line per subpath. Line `j` of path `i` has colour `Palette[i mod 7]`, and its point `k` is `(x, -y)` of point `k` of subpath `j`. |
| Transform.PlotTransformed | app.py:86-96 | The drawing loop emits, in order, one line per subpath of each path: the path's palette colour and the transformed points. |
| Transform.LineColours | app.py:86-96 | Line `j` of path `i` has colour `Palette[i mod 7]`, whichever subpath it comes from, and runs through that subpath's transformed points. |
| Transform.LineCount | app.py:86-96 | The number of lines drawn equals the total number of subpaths. |
| Transform.TransformKeepsStructure | app.py:86-94 | The transform keeps the number of paths, of subpaths and of points, and their order. Only the coordinates change, (x, y) becoming (x, -y). |
| Transform.TransformPathsInvolution | app.py:86-94 | Transforming all paths twice leaves them unchanged. |
| Shapes.Classify | app.py:55-60 | Rectangle exactly when there are 4 vertices, circle exactly when there are more than 4, triangle exactly when there are fewer than 4. |
| Shapes.ShapesOf | app.py:52-61 | A class is in the result exactly when some contour's polygon is classed as it. |
| Shapes.IdentifyShapes | app.py:52-61 | The loop with its three-way branch returns exactly `ShapesOf(approx)`. |
| Shapes.ShapesEmptyIff | app.py:52-61 | No contours, and only no contours, give the empty set. |
| Shapes.AtMostThree | app.py:52-61 | Repeats collapse: the result never has more than three entries. |
| Shapes.IgnoresOrderAndRepeats | app.py:53-60 | The result depends only on which vertex counts occur, not on their order or multiplicity. |
| Shapes.IgnoresPermutation | app.py:53-60 | Any reordering of the contours gives the same set. |
| Shapes.OneQuadrilateral | app.py:55-56 | A single four-vertex contour gives exactly `{rectangle}`. |
| Shapes.TrianglesAndCircle | app.py:55-60 | Any number of three-vertex contours plus one contour with more than four vertices give exactly `{triangle, circle}`, two entries. |
| Upload.Lower | app.py:20 | `lower()` keeps the length and lower-cases each character. |
| Upload.LastDot | app.py:20 | There is no last dot exactly when the name has no dot. Otherwise the position returned holds a dot and no dot follows it. |
| Upload.RSplitLastDot | app.py:20 | `rsplit('.', 1)` yields the whole name when there is no dot. Otherwise it yields two parts that rejoin with a dot to the name, the second of them dot-free. |
| Upload.AllowedFile | app.py:13-20 | A name is accepted exactly when it has a dot whose suffix contains no dot and, lower-cased, is `csv`, `svg`, `png` or `xlsx`. |
| Upload.LowerKeepsSmall | app.py:20 | Text without capital letters is its own lower-case form. |
| Upload.NoDotRejected | app.py:20 | A name without a dot is always refused. |
| Upload.TrailingDotRejected | app.py:20 | A name ending in a dot has an empty extension and is refused. |
| Upload.LowerIdempotent | app.py:20 | Lower-casing twice is lower-casing once. |
| Upload.LowerKeepsLastDot | app.py:20 | Lower-casing does not move the last dot. |
| Upload.CaseInsensitive | app.py:19-20 | Lower-casing the whole name first never changes the verdict. |
| Upload.ExtensionDecides | app.py:20 | Once the last dot is known, the verdict is the lower-cased text after it being one of the four extensions. |
| Upload.DoubleExtension | app.py:20 | For `stem.inner.outer`, only `outer` decides. |
| Upload.UpperCaseExtension | app.py:13-20 | `Drawing.CSV` is accepted. |
| Upload.LastDotAccepts | app.py:13-20 | `shapes.tar.png` is accepted. |
| Upload.LastDotRefuses | app.py:13-20 | Any name ending in `.png.exe` is refused. |

Two points where the code's behaviour may be unexpected: the model follows the code.

- The plot draws column 0 of each subpath's transformed points against
  column 1 (app.py:96). After the two id columns are dropped, those are the
  table's columns 2 and 3, not whichever columns come last.
- An empty list of paths simply leaves the figure empty (app.py:86-96). The
  code raises no rendering error for it.

## Left out

- The Flask routes, the upload folder, `secure_filename`, file saving and
  the HTML templates. These are I/O and are outside this model.
- `csv_to_svg` (app.py:23-46) is not part of the core modelled here.
- `read_csv`'s decoding (`np.genfromtxt`) is left out. So are the `except`
  branch that prints and returns `None` (app.py:76-78) and the numpy
  failures: a one-row file decoding to a 1-D array, fewer than two columns,
  and NaN cells. The model starts from a decoded table of four integer
  columns.
- PathTable.Points: tables with more than four columns are not modelled.
  With extra columns, the source's `[:, 1:]` keeps them all in each subpath.
- `plot_transformed`'s figure handling is left out: `plt.subplots`,
  `set_aspect`, line width, `savefig` into a PNG buffer, and the `except`
  branch. The model keeps only the sequence of line strips with their
  colours. Floating-point coordinates are modelled as integers, and
  negation is exact on both.
- `identify_shapes_from_image`'s image reading, `find_contours` and
  `approximate_polygon` are image-library calls. Their output, the list of
  approximating polygons, is the model's input. The shape names are a
  datatype rather than strings.
- Upload.Lower: lower-cases ASCII letters only. No non-ASCII character
  lower-cases to one of the letters of `csv`, `svg`, `png` or `xlsx`, so the
  Unicode case mapping cannot change a verdict of AllowedFile.
