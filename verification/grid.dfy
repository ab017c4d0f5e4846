/** The bounding-box scan of generateHexagons: every 0.01-degree sample point of the
    box, latitude outer and longitude inner, is mapped to a cell, and a cell is
    appended only the first time it is seen.

    Coordinates are integers counted in hundredths of a degree, so one unit is one
    step of the scan. The cell lookup (geoToH3 at the chosen resolution) is a
    parameter `lookup`: the model assumes nothing about it. */
module Grid {

  /** An H3 index as the geometry library returns it; never parsed here. */
  type CellId = string

  /** Edges of the box, in hundredths of a degree. */
  datatype BoundingBox = BoundingBox(north: int, south: int, west: int, east: int)

  /** One sample point of the scan, in hundredths of a degree. */
  datatype Point = Point(lat: int, lng: int)

  predicate InBox(box: BoundingBox, p: Point) {
    box.south <= p.lat <= box.north && box.west <= p.lng <= box.east
  }

  /** `x` is the cell of some sample point of the box. */
  ghost predicate Sampled(lookup: (int, int) -> CellId, box: BoundingBox, x: CellId) {
    exists p :: InBox(box, p) && lookup(p.lat, p.lng) == x
  }

  /** Scan order: latitude-major, longitude-minor. */
  predicate Before(p: Point, q: Point) {
    p.lat < q.lat || (p.lat == q.lat && p.lng < q.lng)
  }

  predicate Increasing(ps: seq<Point>) {
    forall i, j :: 0 <= i < j < |ps| ==> Before(ps[i], ps[j])
  }

  predicate NoDuplicates(s: seq<CellId>) {
    forall i, j :: 0 <= i < j < |s| ==> s[i] != s[j]
  }

  // ---------------------------------------------------------------------------
  // The sample points, in the order the nested loops visit them
  // ---------------------------------------------------------------------------

  /** The points of latitude `lat` with longitude from `west` up to, not including, `hi`. */
  function Row(lat: int, west: int, hi: int): (ps: seq<Point>)
    ensures |ps| == if hi <= west then 0 else hi - west
    ensures forall k :: 0 <= k < |ps| ==> ps[k] == Point(lat, west + k)
    decreases hi - west
  {
    if hi <= west then [] else Row(lat, west, hi - 1) + [Point(lat, hi - 1)]
  }

  /** The points of the complete rows from `box.south` up to, not including, latitude `hi`. */
  function Rows(box: BoundingBox, hi: int): (ps: seq<Point>)
    ensures forall k :: 0 <= k < |ps| ==>
      box.south <= ps[k].lat < hi && box.west <= ps[k].lng <= box.east
    decreases hi - box.south
  {
    if hi <= box.south then [] else Rows(box, hi - 1) + Row(hi - 1, box.west, box.east + 1)
  }

  /** Every sample point of the box, in visiting order. */
  function Scan(box: BoundingBox): (ps: seq<Point>)
    ensures forall k :: 0 <= k < |ps| ==> InBox(box, ps[k])
  {
    Rows(box, box.north + 1)
  }

  /** The lookups of the sample points, one per point and in the same order. */
  function Hits(lookup: (int, int) -> CellId, ps: seq<Point>): (hs: seq<CellId>)
    ensures |hs| == |ps|
    ensures forall k :: 0 <= k < |ps| ==> hs[k] == lookup(ps[k].lat, ps[k].lng)
  {
    if ps == [] then []
    else Hits(lookup, ps[..|ps| - 1]) + [lookup(ps[|ps| - 1].lat, ps[|ps| - 1].lng)]
  }

  // ---------------------------------------------------------------------------
  // First-discovery deduplication
  // ---------------------------------------------------------------------------

  /** Reads `hs` left to right and appends each element that is not yet in the
      output, exactly as the `includes` check before `push` does. */
  function Dedup(hs: seq<CellId>): (r: seq<CellId>)
    ensures NoDuplicates(r)
    ensures forall x :: x in r <==> x in hs
  {
    if hs == [] then []
    else
      var prev := Dedup(hs[..|hs| - 1]);
      var x := hs[|hs| - 1];
      assert hs == hs[..|hs| - 1] + [x];
      if x in prev then prev else prev + [x]
  }

  /** The position of the first occurrence of `x` in `hs`. */
  function FirstIndex(hs: seq<CellId>, x: CellId): (k: nat)
    requires x in hs
    ensures k < |hs| && hs[k] == x && x !in hs[..k]
  {
    if hs[0] == x then 0
    else
      var k := FirstIndex(hs[1..], x);
      assert hs[..k + 1] == [hs[0]] + hs[1..][..k];
      1 + k
  }

  /** The cells the scan of `box` emits. */
  function Generated(lookup: (int, int) -> CellId, box: BoundingBox): (r: seq<CellId>)
    ensures NoDuplicates(r)
    ensures forall x :: x in r <==> x in Hits(lookup, Scan(box))
  {
    Dedup(Hits(lookup, Scan(box)))
  }

  /** The first sample point of the scan whose lookup is `x`. */
  function FirstHit(lookup: (int, int) -> CellId, box: BoundingBox, x: CellId): Point
    requires x in Hits(lookup, Scan(box))
  {
    Scan(box)[FirstIndex(Hits(lookup, Scan(box)), x)]
  }

  // ---------------------------------------------------------------------------
  // generateHexagons
  // ---------------------------------------------------------------------------

  /** generateHexagons: the nested scan with the membership check before each push. */
  method GenerateHexagons(box: BoundingBox, lookup: (int, int) -> CellId) returns (hexagons: seq<CellId>)
    ensures hexagons == Generated(lookup, box)
    ensures NoDuplicates(hexagons)
    ensures forall x :: x in hexagons <==> Sampled(lookup, box, x)
    ensures box.south > box.north || box.west > box.east ==> hexagons == []
  {
    hexagons := [];
    ghost var visited: seq<Point> := [];
    var lat := box.south;
    while lat <= box.north
      invariant box.south <= lat && (lat <= box.north + 1 || lat == box.south)
      invariant visited == Rows(box, lat)
      invariant hexagons == Dedup(Hits(lookup, visited))
      decreases box.north + 1 - lat
    {
      hexagons := ScanRow(lookup, lat, box.west, box.east, hexagons, visited);
      RowsStep(box, lat);
      visited := visited + Row(lat, box.west, box.east + 1);
      lat := lat + 1;
    }
    ScanDone(box, lat);
    GeneratedFacts(lookup, box, hexagons);
  }

  /** The inner loop of generateHexagons: samples the row `lat` from `west` to `east`,
      pushing each cell that `found` does not hold yet. `visited` are the points
      sampled before the row. */
  method ScanRow(lookup: (int, int) -> CellId, lat: int, west: int, east: int,
                 found: seq<CellId>, ghost visited: seq<Point>) returns (hexagons: seq<CellId>)
    requires found == Dedup(Hits(lookup, visited))
    ensures hexagons == Dedup(Hits(lookup, visited + Row(lat, west, east + 1)))
  {
    hexagons := found;
    var lng := west;
    assert visited + Row(lat, west, west) == visited;
    while lng <= east
      invariant west <= lng && (lng <= east + 1 || lng == west)
      invariant hexagons == Dedup(Hits(lookup, visited + Row(lat, west, lng)))
      decreases east + 1 - lng
    {
      var h3Index := lookup(lat, lng);
      ScanStep(lookup, visited, lat, west, lng);
      if h3Index !in hexagons {
        hexagons := hexagons + [h3Index];
      }
      lng := lng + 1;
    }
    assert Row(lat, west, lng) == Row(lat, west, east + 1);
  }

  /** What the method promises besides its result, stated of `Generated`. The
      method's three further postconditions come from here, so that the method's
      own proof need not unfold `Generated`. */
  lemma GeneratedFacts(lookup: (int, int) -> CellId, box: BoundingBox, hexagons: seq<CellId>)
    requires hexagons == Generated(lookup, box)
    ensures NoDuplicates(hexagons)
    ensures forall x :: x in hexagons <==> Sampled(lookup, box, x)
    ensures box.south > box.north || box.west > box.east ==> hexagons == []
  {
    GeneratedCells(lookup, box);
    InvertedBoxIsEmpty(lookup, box);
  }

  /** One pass of the inner loop body: the sample (lat, lng) is appended to the
      visited points, and its cell to the output unless already there. */
  lemma ScanStep(lookup: (int, int) -> CellId, visited: seq<Point>, lat: int, west: int, lng: int)
    requires west <= lng
    ensures var before := Dedup(Hits(lookup, visited + Row(lat, west, lng)));
      Dedup(Hits(lookup, visited + Row(lat, west, lng + 1))) ==
        if lookup(lat, lng) in before then before else before + [lookup(lat, lng)]
  {
    var row := Row(lat, west, lng);
    var done := visited + row;
    assert Row(lat, west, lng + 1) == row + [Point(lat, lng)];
    assert visited + (row + [Point(lat, lng)]) == done + [Point(lat, lng)];
    HitsSnoc(lookup, done, Point(lat, lng));
    DedupSnoc(Hits(lookup, done), lookup(lat, lng));
  }

  /** One pass of the outer loop adds the complete row `lat`. */
  lemma RowsStep(box: BoundingBox, lat: int)
    requires box.south <= lat
    ensures Rows(box, lat + 1) == Rows(box, lat) + Row(lat, box.west, box.east + 1)
  {
  }

  /** When the outer loop ends, every row of the box has been visited. */
  lemma ScanDone(box: BoundingBox, lat: int)
    requires box.south <= lat && (lat <= box.north + 1 || lat == box.south) && lat > box.north
    ensures Rows(box, lat) == Scan(box)
  {
    if lat != box.north + 1 {
      assert Rows(box, lat) == [] && Scan(box) == [];
    }
  }

  lemma HitsSnoc(lookup: (int, int) -> CellId, ps: seq<Point>, p: Point)
    ensures Hits(lookup, ps + [p]) == Hits(lookup, ps) + [lookup(p.lat, p.lng)]
  {
    assert (ps + [p])[..|ps|] == ps;
  }

  lemma DedupSnoc(hs: seq<CellId>, x: CellId)
    ensures Dedup(hs + [x]) == if x in Dedup(hs) then Dedup(hs) else Dedup(hs) + [x]
  {
    assert (hs + [x])[..|hs|] == hs;
  }

  // ---------------------------------------------------------------------------
  // The scan visits exactly the points of the box, in increasing order
  // ---------------------------------------------------------------------------

  lemma RowMembers(lat: int, west: int, hi: int, p: Point)
    ensures p in Row(lat, west, hi) <==> p.lat == lat && west <= p.lng < hi
  {
    if p.lat == lat && west <= p.lng < hi {
      assert Row(lat, west, hi)[p.lng - west] == p;
    }
  }

  lemma {:induction false} RowsMembers(box: BoundingBox, hi: int, p: Point)
    ensures p in Rows(box, hi) <==> box.south <= p.lat < hi && box.west <= p.lng <= box.east
    decreases hi - box.south
  {
    if hi > box.south {
      var below, row := Rows(box, hi - 1), Row(hi - 1, box.west, box.east + 1);
      assert Rows(box, hi) == below + row;
      assert p in below + row <==> p in below || p in row;
      RowsMembers(box, hi - 1, p);
      RowMembers(hi - 1, box.west, box.east + 1, p);
    }
  }

  /** The scan takes exactly the points of the box. */
  lemma ScanCoversBox(box: BoundingBox, p: Point)
    ensures p in Scan(box) <==> InBox(box, p)
  {
    RowsMembers(box, box.north + 1, p);
  }

  lemma {:induction false} RowsIncreasing(box: BoundingBox, hi: int)
    ensures Increasing(Rows(box, hi))
    decreases hi - box.south
  {
    if hi > box.south {
      RowsIncreasing(box, hi - 1);
      var a := Rows(box, hi - 1);
      var b := Row(hi - 1, box.west, box.east + 1);
      assert Rows(box, hi) == a + b;
      forall i | 0 <= i < |a| ensures a[i].lat < hi - 1 {
        RowsMembers(box, hi - 1, a[i]);
      }
      forall i, j | 0 <= i < j < |a + b| ensures Before((a + b)[i], (a + b)[j]) {
        if j < |a| {
          assert (a + b)[i] == a[i] && (a + b)[j] == a[j];
        } else if i < |a| {
          assert (a + b)[i] == a[i] && (a + b)[j] == b[j - |a|];
        } else {
          assert (a + b)[i] == b[i - |a|] && (a + b)[j] == b[j - |a|];
        }
      }
    }
  }

  /** Each sample point comes strictly after the previous one in lat-major order. */
  lemma ScanIncreasing(box: BoundingBox)
    ensures Increasing(Scan(box))
  {
    RowsIncreasing(box, box.north + 1);
  }

  // ---------------------------------------------------------------------------
  // Properties of the emitted cells
  // ---------------------------------------------------------------------------

  /** A cell is emitted iff some sample point of the box looks it up. */
  lemma GeneratedCells(lookup: (int, int) -> CellId, box: BoundingBox)
    ensures forall x :: x in Generated(lookup, box) <==> Sampled(lookup, box, x)
  {
    var ps := Scan(box);
    var hs := Hits(lookup, ps);
    forall x ensures x in hs <==> Sampled(lookup, box, x) {
      if x in hs {
        var k :| 0 <= k < |hs| && hs[k] == x;
        ScanCoversBox(box, ps[k]);
      }
      if Sampled(lookup, box, x) {
        var p :| InBox(box, p) && lookup(p.lat, p.lng) == x;
        ScanCoversBox(box, p);
        var k :| 0 <= k < |ps| && ps[k] == p;
        assert hs[k] == x;
      }
    }
  }

  /** An inverted box takes no sample, so nothing is emitted. */
  lemma InvertedBoxIsEmpty(lookup: (int, int) -> CellId, box: BoundingBox)
    ensures box.south > box.north || box.west > box.east ==> Generated(lookup, box) == []
  {
    var ps := Scan(box);
    if |ps| > 0 {
      ScanCoversBox(box, ps[0]);
    }
  }

  /** A box that is one point emits exactly the cell of that point. */
  lemma SinglePointBox(lookup: (int, int) -> CellId, box: BoundingBox)
    requires box.south == box.north && box.west == box.east
    ensures Generated(lookup, box) == [lookup(box.south, box.west)]
  {
    assert Row(box.south, box.west, box.east + 1) == [Point(box.south, box.west)];
    assert Rows(box, box.south) == [];
    assert Scan(box) == [Point(box.south, box.west)];
    assert Hits(lookup, Scan(box)) == [lookup(box.south, box.west)];
    DedupSnoc([], lookup(box.south, box.west));
    assert [] + [lookup(box.south, box.west)] == [lookup(box.south, box.west)];
  }

  lemma FirstIndexUnique(hs: seq<CellId>, x: CellId, k: nat)
    requires k < |hs| && hs[k] == x && x !in hs[..k]
    ensures FirstIndex(hs, x) == k
  {
    var f := FirstIndex(hs, x);
  }

  lemma FirstIndexSnoc(hs: seq<CellId>, x: CellId, y: CellId)
    requires y in hs
    ensures FirstIndex(hs + [x], y) == FirstIndex(hs, y)
  {
    var k := FirstIndex(hs, y);
    assert (hs + [x])[..k] == hs[..k];
    FirstIndexUnique(hs + [x], y, k);
  }

  /** Dedup keeps the cells ordered by the position of their first occurrence. */
  lemma {:induction false} DedupFirstDiscoveryOrder(hs: seq<CellId>)
    ensures forall i, j :: 0 <= i < j < |Dedup(hs)| ==>
      FirstIndex(hs, Dedup(hs)[i]) < FirstIndex(hs, Dedup(hs)[j])
  {
    if hs != [] {
      var pre := hs[..|hs| - 1];
      var x := hs[|hs| - 1];
      assert hs == pre + [x];
      DedupFirstDiscoveryOrder(pre);
      DiscoveryOrderSnoc(pre, x);
    }
  }

  /** The induction step: a new last lookup keeps the order by first occurrence. */
  lemma DiscoveryOrderSnoc(pre: seq<CellId>, x: CellId)
    requires forall i, j :: 0 <= i < j < |Dedup(pre)| ==>
      FirstIndex(pre, Dedup(pre)[i]) < FirstIndex(pre, Dedup(pre)[j])
    ensures forall i, j :: 0 <= i < j < |Dedup(pre + [x])| ==>
      FirstIndex(pre + [x], Dedup(pre + [x])[i]) < FirstIndex(pre + [x], Dedup(pre + [x])[j])
  {
    var hs := pre + [x];
    var p := Dedup(pre);
    DedupSnoc(pre, x);
    forall y | y in p ensures FirstIndex(hs, y) == FirstIndex(pre, y) {
      FirstIndexSnoc(pre, x, y);
    }
    if x !in p {
      FirstIndexUnique(hs, x, |pre|);
      var r := Dedup(hs);
      assert r == p + [x];
      forall i, j | 0 <= i < j < |r| ensures FirstIndex(hs, r[i]) < FirstIndex(hs, r[j]) {
        assert r[i] == p[i];
        if j < |p| {
          assert r[j] == p[j];
        }
      }
    }
  }

  /** The first emitted cell is the cell of the first sample. */
  lemma DedupHead(hs: seq<CellId>)
    requires hs != []
    ensures Dedup(hs) != [] && Dedup(hs)[0] == hs[0]
  {
    var r := Dedup(hs);
    assert hs[0] in r;
    FirstIndexUnique(hs, hs[0], 0);
    DedupFirstDiscoveryOrder(hs);
  }

  /** In a box that is not inverted, the first emitted cell is the cell of the
      south-west corner, the first point sampled. */
  lemma FirstCellIsCorner(lookup: (int, int) -> CellId, box: BoundingBox)
    requires box.south <= box.north && box.west <= box.east
    ensures Generated(lookup, box) != []
    ensures Generated(lookup, box)[0] == lookup(box.south, box.west)
  {
    var ps := Scan(box);
    var corner := Point(box.south, box.west);
    ScanCoversBox(box, corner);
    ScanCoversBox(box, ps[0]);
    ScanIncreasing(box);
    assert ps[0] == corner;
    DedupHead(Hits(lookup, ps));
  }

  /** The first sample that hits `x` lies in the box, hits `x`, and no earlier
      point of the box hits `x`. */
  lemma FirstHitIsEarliest(lookup: (int, int) -> CellId, box: BoundingBox, x: CellId)
    requires x in Hits(lookup, Scan(box))
    ensures InBox(box, FirstHit(lookup, box, x))
    ensures lookup(FirstHit(lookup, box, x).lat, FirstHit(lookup, box, x).lng) == x
    ensures forall q :: InBox(box, q) && lookup(q.lat, q.lng) == x ==>
      q == FirstHit(lookup, box, x) || Before(FirstHit(lookup, box, x), q)
  {
    var ps := Scan(box);
    var hs := Hits(lookup, ps);
    var f := FirstIndex(hs, x);
    ScanCoversBox(box, ps[f]);
    ScanIncreasing(box);
    forall q | InBox(box, q) && lookup(q.lat, q.lng) == x
      ensures q == ps[f] || Before(ps[f], q)
    {
      ScanCoversBox(box, q);
      var k :| 0 <= k < |ps| && ps[k] == q;
    }
  }

  /** Cell `a` is emitted before cell `b` iff the first sample hitting `a`
      precedes, in lat-major order, the first sample hitting `b`. */
  lemma GeneratedInDiscoveryOrder(lookup: (int, int) -> CellId, box: BoundingBox)
    ensures forall i, j :: 0 <= i < |Generated(lookup, box)| && 0 <= j < |Generated(lookup, box)| ==>
      (i < j <==> Before(FirstHit(lookup, box, Generated(lookup, box)[i]),
                         FirstHit(lookup, box, Generated(lookup, box)[j])))
  {
    ScanIncreasing(box);
    DedupOrderAgrees(Scan(box), Hits(lookup, Scan(box)));
  }

  /** For lookups `hs` of increasing points `ps`, the order of Dedup(hs) is the
      order of the points where each cell first occurs. */
  lemma DedupOrderAgrees(ps: seq<Point>, hs: seq<CellId>)
    requires Increasing(ps) && |hs| == |ps|
    ensures forall i, j :: 0 <= i < |Dedup(hs)| && 0 <= j < |Dedup(hs)| ==>
      (i < j <==> Before(ps[FirstIndex(hs, Dedup(hs)[i])], ps[FirstIndex(hs, Dedup(hs)[j])]))
  {
    var r := Dedup(hs);
    DedupFirstDiscoveryOrder(hs);
    forall i, j | 0 <= i < |r| && 0 <= j < |r|
      ensures i < j <==> Before(ps[FirstIndex(hs, r[i])], ps[FirstIndex(hs, r[j])])
    {
      IncreasingOrder(ps, FirstIndex(hs, r[i]), FirstIndex(hs, r[j]));
    }
  }

  /** In a strictly increasing sequence, position order and point order agree. */
  lemma IncreasingOrder(ps: seq<Point>, a: nat, b: nat)
    requires Increasing(ps) && a < |ps| && b < |ps|
    ensures a < b <==> Before(ps[a], ps[b])
  {
    if b < a {
      assert Before(ps[b], ps[a]);
    }
  }
}
