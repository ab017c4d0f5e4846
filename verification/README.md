# hexagon-polygon-map: the grid scan, the cell records and the CSV rows

The application lets a user pick a latitude/longitude bounding box and an H3
resolution. It then covers the box with hexagonal H3 cells, draws them, and exports
them as CSV. All of its logic lives in one React component, `src/App.js`. This
project models the three computations in that component and proves what they
promise:

- **`generateHexagons`** (module `Grid`, `grid.dfy`). The method walks the box in
  0.01-degree steps, with latitude in the outer loop and longitude in the inner
  loop. It looks up the cell of each sample point and appends the cell only if it
  is not already in the output. `Grid.GenerateHexagons` is the outer `while` loop
  and `Grid.ScanRow` is the inner one, written as a method of its own with its own
  contract. The method is proved equal to the specification function `Generated`, which is the
  first-occurrence deduplication (`Dedup`) of the lookups (`Hits`) of every sample
  point in visiting order (`Scan`). The lemmas prove four things about
  `Generated`:
  - it has no duplicates;
  - it holds exactly the cells that some point of the box hits;
  - it is ordered by first discovery in lat-major order;
  - it is empty for an inverted box and a single cell for a one-point box.
- **The `hexagonPolygons` map** (module `Records`, `records.dfy`). Each cell becomes
  a record holding:
  - the 1-based position as `id`;
  - the cell itself;
  - a vertex-for-vertex copy of its boundary ring;
  - the constant colour from `getColor`;
  - a `center` that is the unweighted mean of the vertex latitudes and of the
    vertex longitudes, computed with left folds like the source's `reduce`.
- **The row shaping of `exportCSV`** (module `Export`, `export.dfy`). Each record
  becomes a row `{polygonId, h3Index, polygon}`. The polygon text is one
  `[lat, lng]` piece per vertex, joined by `"; "` as `Array.prototype.join` does.
  `CsvData` is a Dafny function of the record list, so two exports of the same
  records give the same rows.
- **The three stages together** (module `Pipeline`, `pipeline.dfy`). These lemmas
  prove how the stages compose: the records of a scan carry distinct cells, and an
  export of a box that is not inverted has rows numbered from 1 whose first row
  is the cell of the south-west corner.

Modelling choices:

- Sample coordinates are integers counted in hundredths of a degree, so one unit
  is one step of the scan. The box edges are the integers
  `BoundingBox(north, south, west, east)`.
- The H3 library is outside the model. It appears only as two function
  parameters:
  - `lookup: (int, int) -> CellId` stands for `geoToH3` at the chosen resolution;
  - `boundaryOf: CellId -> Ring` stands for `h3ToGeoBoundary`, where a `Ring` is a
    non-empty sequence of `LatLng`.
- The JavaScript number-to-text conversion of the template literal is the
  parameter `numToText: real -> string`.
- Boundary coordinates are `real`.

Where the design description and the code differ, the model follows the code:

- The design describes a `GeometryResolutionError` raised by the record builder.
  The code has no such path: it uses whatever ring `h3ToGeoBoundary` returns, and
  if that call throws, nothing catches it and the whole `hexagons.map` aborts.
- The design states `south <= north` as an invariant of the box. The code accepts
  any box and simply takes no sample when the box is inverted.

## Model

| member | source | states |
|---|---|---|
| `Grid.GenerateHexagons` | src/App.js:41-55 | the nested scan returns exactly `Generated(lookup, box)`; the result has no repeated cell; a cell is in it iff some sample point of the box looks it up; an inverted box (`south > north` or `west > east`) gives `[]` |
| `Grid.GeneratedFacts` | src/App.js:41-55 | a list equal to `Generated(lookup, box)` has no repeated cell, holds exactly the cells some point of the box looks up, and is empty for an inverted box |
| `Grid.ScanRow` | src/App.js:47-52 | the inner loop over one latitude extends the deduplicated output of the points visited so far to the deduplicated output of those points followed by the whole row `west..east` |
| `Grid.ScanStep` | src/App.js:48-51 | one inner-loop pass appends the sample's cell to the deduplicated output iff the cell is not already in it (the `includes` check before `push`) |
| `Grid.Row` | src/App.js:47 | the inner loop visits longitudes `west, west+1, ..., hi-1` at a fixed latitude, in that order, and none if `hi <= west` |
| `Grid.Hits` | src/App.js:48 | one lookup per sample point, in the same order: position `k` holds the cell of sample `k` |
| `Grid.Dedup` | src/App.js:49-51 | first-occurrence deduplication has no repeated element and has exactly the elements of its input |
| `Grid.Rows` | src/App.js:46-47 | the complete rows from `south` up to latitude `hi`, row after row (latitude outer, longitude inner); every point has `south <= lat < hi` and `west <= lng <= east` |
| `Grid.Scan` | src/App.js:46-47 | every sample point of the box in visiting order, rows `south..north` inclusive; every point lies in the box |
| `Grid.Generated` | src/App.js:41-55 | the specification of `generateHexagons`: the first-occurrence deduplication of the lookups of the scan; it has no repeated cell and holds exactly the looked-up cells |
| `Grid.ScanCoversBox` | src/App.js:46-47 | the loops sample a point iff it lies in the box (both bounds inclusive) |
| `Grid.ScanIncreasing` | src/App.js:46-47 | the samples are taken in strictly increasing lat-major, lng-minor order |
| `Grid.GeneratedCells` | src/App.js:46-52 | a cell is emitted iff some sample point of the box looks it up |
| `Grid.InvertedBoxIsEmpty` | src/App.js:46-47 | if `south > north` or `west > east`, no sample is taken and the result is empty |
| `Grid.SinglePointBox` | src/App.js:46-51 | a box with `south == north` and `west == east` yields exactly the one cell of that point |
| `Grid.DedupFirstDiscoveryOrder` | src/App.js:49-50 | the emitted cells are strictly ordered by the position of their first occurrence among the lookups |
| `Grid.DedupOrderAgrees` | src/App.js:46-50 | for the lookups of any strictly increasing list of points, position order in the deduplicated output and order of the first points hitting each cell coincide, in both directions |
| `Grid.DedupHead` | src/App.js:49-50 | the first emitted cell is the first cell looked up |
| `Grid.FirstCellIsCorner` | src/App.js:46-50 | for a box that is not inverted, the result is non-empty and starts with the cell of the south-west corner |
| `Grid.FirstHitIsEarliest` | src/App.js:46-48 | the first sample hitting a cell lies in the box, hits that cell, and no point of the box that hits it comes earlier in lat-major order |
| `Grid.GeneratedInDiscoveryOrder` | src/App.js:46-50 | cell `a` precedes cell `b` in the result iff the first sample hitting `a` precedes the first sample hitting `b` in lat-major order |
| `Records.CopyRing` | src/App.js:66 | the per-vertex copy `boundary.map(([lat, lng]) => [lat, lng])` equals the ring vertex for vertex |
| `Records.GetColor` | src/App.js:57 | `getColor`: the constant `"blue"` for every cell (no contract of its own; `BuildPolygon` and `HexagonPolygons` state the colour) |
| `Records.SumLat` | src/App.js:61 | the `reduce((sum, [lat]) => sum + lat, 0)` left fold, adding latitudes from the first vertex to the last (no contract of its own; `SumLatBounds` bounds it) |
| `Records.SumLng` | src/App.js:62 | the same left fold over the longitudes (no contract of its own; `SumLngBounds` bounds it) |
| `Records.Center` | src/App.js:61-62 | the centre: each fold divided by `boundary.length` (no contract of its own; `CenterIsMean`, `CenterWithinBounds` and `CenterOfSquare` are proved about it) |
| `Records.CenterIsMean` | src/App.js:61-62 | n copies of the centre add up to the vertex sums, so the centre is the mean of the vertices |
| `Records.BuildPolygon` | src/App.js:57-69 | the `map` callback for the cell at position `i`: `id == i + 1`, the same cell, the boundary ring as polygon, colour `"blue"`, centre `Center` of the ring |
| `Records.HexagonPolygons` | src/App.js:57-70 | one record per cell, same length and order; record `i` has `id == i + 1` (a dense ascending run from 1), the cell `hexagons[i]`, the boundary ring as polygon, colour `"blue"` and the mean-of-vertices centre |
| `Records.SumLatBounds` | src/App.js:61 | if every vertex latitude is within `[lo, hi]`, the `reduce` sum of n latitudes is within `[n*lo, n*hi]` |
| `Records.SumLngBounds` | src/App.js:62 | the same bound for the longitude sum |
| `Records.CenterWithinBounds` | src/App.js:61-62 | the centre lies inside every latitude/longitude range that contains all the vertices |
| `Records.CenterOfSquare` | src/App.js:61-62 | the ring (0,0), (0,2), (2,2), (2,0) has centre (1,1) |
| `Export.CsvData` | src/App.js:73-77 | one row per record, same length and order; row `i` has `polygonId` = record id, `h3Index` = record cell, `polygon` = the joined vertex texts of the record's polygon |
| `Export.VertexText` | src/App.js:76 | the template literal `` `[${lat}, ${lng}]` ``: four characters more than the two number texts, opening with `[` and closing with `]` |
| `Export.Join` | src/App.js:76 | `Array.prototype.join`: `""` for no pieces; otherwise the text starts with the first piece |
| `Export.JoinEndsWithLast` | src/App.js:76 | the joined text of one or more pieces ends with the last piece |
| `Export.PolygonText` | src/App.js:76 | the polygon column: `""` for no vertices; otherwise it opens with the first vertex's `[lat, lng]` piece |
| `Export.JoinCount` | src/App.js:76 | joining n >= 1 pieces contributes n - 1 copies of the separator: counts of any character add up over the pieces plus n - 1 separators |
| `Export.PolygonTextShape` | src/App.js:76 | for n >= 1 vertices, and numbers written without `;`, `[` or `]`, the polygon text has n - 1 `;` separators and n `[` and n `]` |
| `Export.PolygonTextExample` | src/App.js:76 | the vertices (40, -74), (40.1, -74), (40.1, -73.9) are written `[40, -74]; [40.1, -74]; [40.1, -73.9]` |
| `Export.ExportExample` | src/App.js:73-77 | the record {1, cell, [(40, -74), (40.1, -74), (40.1, -73.9)]} exports as the row 1, cell, `[40, -74]; [40.1, -74]; [40.1, -73.9]` |
| `Pipeline.RecordsOfScan` | src/App.js:41-70 | the records built from a scan carry pairwise distinct cells; each record's cell is hit by some sample point, and each sample point's cell has a record |
| `Pipeline.ExportOfScan` | src/App.js:41-77 | for a box that is not inverted, the export has at least one row; rows are numbered `i + 1`, carry distinct cells, and the first row (polygonId 1) is the cell of the south-west corner |

## Left out

- React state, hooks and handlers (`useState`, `handleBoundaryChange`, `handleResolutionChange`, `handleSubmit`, src/App.js:11-39) are UI plumbing.
- JSX rendering (map, tiles, polygons, markers, tooltips, the settings form, the map-centre midpoint, src/App.js:84-155) is presentation.
- `geoToH3` and `h3ToGeoBoundary` are a foreign library. They are the parameters `lookup` and `boundaryOf`, and the model assumes only that a boundary ring is non-empty. The resolution argument of `geoToH3` is folded into `lookup`.
- Floating point is not modelled. The source accumulates `lat += 0.01` in binary floating point, which can drift and so add or drop a last row or column. The model counts exact integer steps of 0.01 degree. A box whose edges are not multiples of 0.01, such as the application's default box (south 40.4774, west -74.2591), is still covered: index the samples from the south-west corner and fold the offset into the lookup, `lookup(i, j) = geoToH3(south + 0.01 * i, west + 0.01 * j)`, with the box edges given as step counts.
- The centre's sums and division are exact `real` arithmetic, not IEEE doubles.
- An empty boundary ring (a `NaN` centre in JavaScript) is excluded by the `Ring` type rather than modelled.
- JavaScript's number-to-string conversion in `${lat}` is the abstract parameter `numToText`.
- Export.PolygonTextShape: the separator and bracket counts assume that `numToText` never produces `;`, `[` or `]`. This holds of JavaScript's number formatting, but that formatting is not modelled.
- A failing `h3ToGeoBoundary` is not modelled. `src/App.js` catches nothing, so a cell the library cannot resolve would make it throw and abort the whole `hexagons.map`, failing the batch. The total `boundaryOf` assumes this never happens, which holds for cells that `geoToH3` itself produced.
- `Papa.unparse` is not modelled: neither the header row `polygonId,h3Index,polygon` nor the CSV quoting of the polygon field.
- The `Blob` and `saveAs(blob, 'hexagons.csv')` file download is I/O.
