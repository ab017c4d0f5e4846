/** The three stages together, as the component runs them: the scan's cells feed
    the record builder, whose records feed the export rows. */
module Pipeline {
  import opened Grid
  import opened Records
  import opened Export

  /** The records built from a scan carry pairwise distinct cells; every record's
      cell is the lookup of some sample point of the box, and every sample point's
      cell has a record. */
  lemma RecordsOfScan(lookup: (int, int) -> CellId, boundaryOf: CellId -> Ring, box: BoundingBox)
    ensures var records := HexagonPolygons(boundaryOf, Generated(lookup, box));
      forall i, j :: 0 <= i < j < |records| ==> records[i].h3Index != records[j].h3Index
    ensures var records := HexagonPolygons(boundaryOf, Generated(lookup, box));
      forall i :: 0 <= i < |records| ==> Sampled(lookup, box, records[i].h3Index)
    ensures var records := HexagonPolygons(boundaryOf, Generated(lookup, box));
      forall p :: InBox(box, p) ==>
        exists i :: 0 <= i < |records| && records[i].h3Index == lookup(p.lat, p.lng)
  {
    var cells := Generated(lookup, box);
    var records := HexagonPolygons(boundaryOf, cells);
    GeneratedCells(lookup, box);
    forall i | 0 <= i < |records| ensures Sampled(lookup, box, records[i].h3Index) {
      assert cells[i] in cells && records[i].h3Index == cells[i];
    }
    forall p | InBox(box, p)
      ensures exists i :: 0 <= i < |records| && records[i].h3Index == lookup(p.lat, p.lng)
    {
      var x := lookup(p.lat, p.lng);
      assert x in cells;
      var i :| 0 <= i < |cells| && cells[i] == x;
      assert records[i].h3Index == x;
    }
  }

  /** For any box that is not inverted, scan, build and export give at least one row;
      the rows are numbered 1, 2, ... in order, carry distinct cells, and the first
      row is the cell of the south-west corner. */
  lemma ExportOfScan(lookup: (int, int) -> CellId, boundaryOf: CellId -> Ring,
                     numToText: real -> string, box: BoundingBox)
    requires box.south <= box.north && box.west <= box.east
    ensures var rows := CsvData(numToText, HexagonPolygons(boundaryOf, Generated(lookup, box)));
      && |rows| >= 1
      && rows[0].polygonId == 1
      && rows[0].h3Index == lookup(box.south, box.west)
      && (forall i :: 0 <= i < |rows| ==> rows[i].polygonId == i + 1)
      && (forall i, j :: 0 <= i < j < |rows| ==> rows[i].h3Index != rows[j].h3Index)
  {
    FirstCellIsCorner(lookup, box);
    RecordsOfScan(lookup, boundaryOf, box);
  }
}
