/** The hexagonPolygons map: each emitted cell becomes a display record carrying a
    1-based id, the cell, a copy of its boundary ring, a colour and the mean of the
    ring's vertices.

    The boundary lookup (h3ToGeoBoundary) is a parameter `boundaryOf` returning a
    non-empty ring. Coordinates are reals: floating-point rounding is not modelled. */
module Records {
  import opened Grid

  datatype LatLng = LatLng(lat: real, lng: real)

  /** A boundary ring as the geometry library returns it: at least one vertex. */
  type Ring = r: seq<LatLng> | |r| > 0 witness [LatLng(0.0, 0.0)]

  datatype HexagonPolygon = HexagonPolygon(
    id: int,
    h3Index: CellId,
    polygon: seq<LatLng>,
    color: string,
    center: LatLng)

  /** The display colour; the same for every cell. */
  function GetColor(h3Index: CellId): string {
    "blue"
  }

  /** Left fold of `sum + lat` over the ring, starting at 0. */
  function SumLat(ring: seq<LatLng>): real {
    if ring == [] then 0.0 else SumLat(ring[..|ring| - 1]) + ring[|ring| - 1].lat
  }

  /** Left fold of `sum + lng` over the ring, starting at 0. */
  function SumLng(ring: seq<LatLng>): real {
    if ring == [] then 0.0 else SumLng(ring[..|ring| - 1]) + ring[|ring| - 1].lng
  }

  /** The unweighted mean of the vertex latitudes and of the vertex longitudes. */
  function Center(ring: Ring): LatLng {
    LatLng(SumLat(ring) / |ring| as real, SumLng(ring) / |ring| as real)
  }

  /** The centre is the mean: n copies of it add up to the vertex sums. */
  lemma CenterIsMean(ring: Ring)
    ensures |ring| as real * Center(ring).lat == SumLat(ring)
    ensures |ring| as real * Center(ring).lng == SumLng(ring)
  {
  }

  /** The vertex-by-vertex copy of the ring that the record stores. */
  function CopyRing(ring: seq<LatLng>): (polygon: seq<LatLng>)
    ensures polygon == ring
  {
    var copy := seq(|ring|, k requires 0 <= k < |ring| => LatLng(ring[k].lat, ring[k].lng));
    assert forall k :: 0 <= k < |ring| ==> copy[k] == ring[k];
    copy
  }

  /** The record for the cell at position `i` of the emitted list. */
  function BuildPolygon(boundaryOf: CellId -> Ring, h3Index: CellId, i: nat): (record: HexagonPolygon)
    ensures record.id == i + 1 && record.h3Index == h3Index
    ensures record.polygon == boundaryOf(h3Index)
    ensures record.color == "blue"
    ensures record.center == Center(boundaryOf(h3Index))
  {
    var boundary := boundaryOf(h3Index);
    HexagonPolygon(i + 1, h3Index, CopyRing(boundary), GetColor(h3Index), Center(boundary))
  }

  /** `hexagons.map((h3Index, i) => ...)`: one record per cell, in the same order. */
  function HexagonPolygons(boundaryOf: CellId -> Ring, hexagons: seq<CellId>): (records: seq<HexagonPolygon>)
    ensures |records| == |hexagons|
    ensures forall i :: 0 <= i < |records| ==>
      && records[i].id == i + 1
      && records[i].h3Index == hexagons[i]
      && records[i].polygon == boundaryOf(hexagons[i])
      && records[i].color == "blue"
      && records[i].center == Center(boundaryOf(hexagons[i]))
  {
    seq(|hexagons|, i requires 0 <= i < |hexagons| => BuildPolygon(boundaryOf, hexagons[i], i))
  }

  lemma {:induction false} SumLatBounds(ring: seq<LatLng>, lo: real, hi: real)
    requires forall k :: 0 <= k < |ring| ==> lo <= ring[k].lat <= hi
    ensures |ring| as real * lo <= SumLat(ring) <= |ring| as real * hi
  {
    if ring != [] {
      SumLatBounds(ring[..|ring| - 1], lo, hi);
    }
  }

  lemma {:induction false} SumLngBounds(ring: seq<LatLng>, lo: real, hi: real)
    requires forall k :: 0 <= k < |ring| ==> lo <= ring[k].lng <= hi
    ensures |ring| as real * lo <= SumLng(ring) <= |ring| as real * hi
  {
    if ring != [] {
      SumLngBounds(ring[..|ring| - 1], lo, hi);
    }
  }

  lemma MeanBounds(sum: real, n: real, lo: real, hi: real)
    requires n > 0.0 && n * lo <= sum <= n * hi
    ensures lo <= sum / n <= hi
  {
    var m := sum / n;
    assert m * n == sum;
  }

  /** The centre lies inside every latitude/longitude range that holds all the vertices. */
  lemma CenterWithinBounds(ring: Ring, south: real, north: real, west: real, east: real)
    requires forall k :: 0 <= k < |ring| ==>
      south <= ring[k].lat <= north && west <= ring[k].lng <= east
    ensures south <= Center(ring).lat <= north
    ensures west <= Center(ring).lng <= east
  {
    SumLatBounds(ring, south, north);
    SumLngBounds(ring, west, east);
    MeanBounds(SumLat(ring), |ring| as real, south, north);
    MeanBounds(SumLng(ring), |ring| as real, west, east);
  }

  /** The square (0,0), (0,2), (2,2), (2,0) has its centre at (1,1). */
  lemma CenterOfSquare()
    ensures Center([LatLng(0.0, 0.0), LatLng(0.0, 2.0), LatLng(2.0, 2.0), LatLng(2.0, 0.0)]) == LatLng(1.0, 1.0)
  {
    var ring := [LatLng(0.0, 0.0), LatLng(0.0, 2.0), LatLng(2.0, 2.0), LatLng(2.0, 0.0)];
    assert ring[..3] == [LatLng(0.0, 0.0), LatLng(0.0, 2.0), LatLng(2.0, 2.0)];
    assert ring[..3][..2] == [LatLng(0.0, 0.0), LatLng(0.0, 2.0)];
    assert ring[..3][..2][..1] == [LatLng(0.0, 0.0)];
    assert ring[..3][..2][..1][..0] == [];
    assert SumLat(ring[..3][..2][..1]) == 0.0 && SumLng(ring[..3][..2][..1]) == 0.0;
    assert SumLat(ring[..3][..2]) == 0.0 && SumLng(ring[..3][..2]) == 2.0;
    assert SumLat(ring[..3]) == 2.0 && SumLng(ring[..3]) == 4.0;
    assert SumLat(ring) == 4.0 && SumLng(ring) == 4.0;
  }
}
