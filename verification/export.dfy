/** The row shaping of exportCSV: each record becomes a row {polygonId, h3Index,
    polygon}, where polygon is the text `[lat, lng]` of every vertex, in ring order,
    joined by "; ".

    The JavaScript number-to-text conversion of a template literal is a parameter
    `numToText`; the model assumes nothing about it except where a lemma says so. */
module Export {
  import opened Grid
  import opened Records

  datatype CsvRow = CsvRow(polygonId: int, h3Index: CellId, polygon: string)

  /** `[${lat}, ${lng}]`: the two numbers inside one pair of brackets. */
  function VertexText(numToText: real -> string, v: LatLng): (text: string)
    ensures |text| == |numToText(v.lat)| + |numToText(v.lng)| + 4
    ensures text[0] == '[' && text[|text| - 1] == ']'
  {
    "[" + numToText(v.lat) + ", " + numToText(v.lng) + "]"
  }

  /** Array.prototype.join: the pieces with `sep` between neighbours; "" for no
      pieces. The text starts with the first piece (and, by `JoinEndsWithLast`,
      ends with the last). */
  function Join(pieces: seq<string>, sep: string): (text: string)
    ensures pieces == [] ==> text == ""
    ensures pieces != [] ==> |pieces[0]| <= |text| && text[..|pieces[0]|] == pieces[0]
  {
    if |pieces| == 0 then ""
    else if |pieces| == 1 then pieces[0]
    else
      pieces[0] + sep + Join(pieces[1..], sep)
  }

  /** The joined text ends with the last piece. */
  lemma {:induction false} JoinEndsWithLast(pieces: seq<string>, sep: string)
    requires pieces != []
    ensures var last := pieces[|pieces| - 1];
      |last| <= |Join(pieces, sep)| && Join(pieces, sep)[|Join(pieces, sep)| - |last|..] == last
  {
    if |pieces| > 1 {
      JoinEndsWithLast(pieces[1..], sep);
      var rest := Join(pieces[1..], sep);
      var text := pieces[0] + sep + rest;
      assert text[|text| - |rest|..] == rest;
    }
  }

  /** The polygon column: one `[lat, lng]` piece per vertex, joined by "; ". It is
      empty for no vertices, and otherwise opens with the first vertex's piece. */
  function PolygonText(numToText: real -> string, polygon: seq<LatLng>): (text: string)
    ensures polygon == [] ==> text == ""
    ensures polygon != [] ==> var first := VertexText(numToText, polygon[0]);
      |first| <= |text| && text[..|first|] == first
  {
    Join(seq(|polygon|, k requires 0 <= k < |polygon| => VertexText(numToText, polygon[k])), "; ")
  }

  /** `hexagonPolygons.map(...)` in exportCSV: one row per record, in the same order. */
  function CsvData(numToText: real -> string, records: seq<HexagonPolygon>): (rows: seq<CsvRow>)
    ensures |rows| == |records|
    ensures forall i :: 0 <= i < |rows| ==>
      && rows[i].polygonId == records[i].id
      && rows[i].h3Index == records[i].h3Index
      && rows[i].polygon == PolygonText(numToText, records[i].polygon)
  {
    if records == [] then []
    else
      var record := records[0];
      [CsvRow(record.id, record.h3Index, PolygonText(numToText, record.polygon))] + CsvData(numToText, records[1..])
  }

  // ---------------------------------------------------------------------------
  // Counting characters: the shape of the polygon text
  // ---------------------------------------------------------------------------

  function CountChar(s: string, c: char): nat {
    if s == [] then 0 else (if s[0] == c then 1 else 0) + CountChar(s[1..], c)
  }

  /** The total count of `c` over all pieces. */
  function CountAll(pieces: seq<string>, c: char): nat {
    if pieces == [] then 0 else CountChar(pieces[0], c) + CountAll(pieces[1..], c)
  }

  lemma {:induction false} CountCharAppend(a: string, b: string, c: char)
    ensures CountChar(a + b, c) == CountChar(a, c) + CountChar(b, c)
  {
    if a == [] {
      assert a + b == b;
    } else {
      assert (a + b)[0] == a[0] && (a + b)[1..] == a[1..] + b;
      CountCharAppend(a[1..], b, c);
    }
  }

  lemma {:induction false} CountCharAbsent(s: string, c: char)
    requires c !in s
    ensures CountChar(s, c) == 0
  {
    if s != [] {
      CountCharAbsent(s[1..], c);
    }
  }

  /** Joining n pieces adds n - 1 copies of the separator's characters. */
  lemma {:induction false} JoinCount(pieces: seq<string>, sep: string, c: char)
    requires |pieces| > 0
    ensures CountChar(Join(pieces, sep), c) == CountAll(pieces, c) + (|pieces| - 1) * CountChar(sep, c)
  {
    if |pieces| == 1 {
      assert pieces[1..] == [];
    } else {
      JoinCount(pieces[1..], sep, c);
      CountCharAppend(pieces[0], sep, c);
      CountCharAppend(pieces[0] + sep, Join(pieces[1..], sep), c);
      var k := CountChar(sep, c);
      assert (|pieces| - 2) * k + k == (|pieces| - 1) * k;
    }
  }

  lemma {:induction false} CountAllUniform(pieces: seq<string>, c: char, m: nat)
    requires forall k :: 0 <= k < |pieces| ==> CountChar(pieces[k], c) == m
    ensures CountAll(pieces, c) == |pieces| * m
  {
    if pieces != [] {
      CountAllUniform(pieces[1..], c, m);
      assert (|pieces| - 1) * m + m == |pieces| * m;
    }
  }

  lemma VertexTextCount(numToText: real -> string, v: LatLng, c: char)
    requires c !in numToText(v.lat) && c !in numToText(v.lng)
    ensures CountChar(VertexText(numToText, v), c) ==
      CountChar("[", c) + CountChar(", ", c) + CountChar("]", c)
  {
    var a, b := numToText(v.lat), numToText(v.lng);
    CountCharAbsent(a, c);
    CountCharAbsent(b, c);
    CountCharAppend("[", a, c);
    CountCharAppend("[" + a, ", ", c);
    CountCharAppend("[" + a + ", ", b, c);
    CountCharAppend("[" + a + ", " + b, "]", c);
  }

  /** When numbers are written without ';', '[' or ']' (as JavaScript writes them),
      the polygon text of n >= 1 vertices has n - 1 "; " separators and one pair of
      brackets per vertex. */
  lemma PolygonTextShape(numToText: real -> string, polygon: seq<LatLng>)
    requires |polygon| > 0
    requires forall x :: ';' !in numToText(x) && '[' !in numToText(x) && ']' !in numToText(x)
    ensures CountChar(PolygonText(numToText, polygon), ';') == |polygon| - 1
    ensures CountChar(PolygonText(numToText, polygon), '[') == |polygon|
    ensures CountChar(PolygonText(numToText, polygon), ']') == |polygon|
  {
    var pieces := seq(|polygon|, k requires 0 <= k < |polygon| => VertexText(numToText, polygon[k]));
    forall k | 0 <= k < |pieces|
      ensures CountChar(pieces[k], ';') == 0
      ensures CountChar(pieces[k], '[') == 1
      ensures CountChar(pieces[k], ']') == 1
    {
      VertexTextCount(numToText, polygon[k], ';');
      VertexTextCount(numToText, polygon[k], '[');
      VertexTextCount(numToText, polygon[k], ']');
    }
    CountAllUniform(pieces, ';', 0);
    CountAllUniform(pieces, '[', 1);
    CountAllUniform(pieces, ']', 1);
    JoinCount(pieces, "; ", ';');
    JoinCount(pieces, "; ", '[');
    JoinCount(pieces, "; ", ']');
  }

  lemma JoinThree(a: string, b: string, c: string, sep: string)
    ensures Join([a, b, c], sep) == a + sep + b + sep + c
  {
    assert [b, c][1..] == [c];
    assert Join([b, c], sep) == b + sep + c;
    assert [a, b, c][1..] == [b, c];
    assert Join([a, b, c], sep) == a + sep + (b + sep + c);
  }

  /** The example text, assembled piece by piece. */
  lemma ExampleTextPieces()
    ensures ("[" + "40" + ", " + "-74" + "]") + "; " + ("[" + "40.1" + ", " + "-74" + "]") + "; "
      + ("[" + "40.1" + ", " + "-73.9" + "]") == "[40, -74]; [40.1, -74]; [40.1, -73.9]"
  {
  }

  /** The vertices (40, -74), (40.1, -74), (40.1, -73.9) are written
      "[40, -74]; [40.1, -74]; [40.1, -73.9]". */
  lemma PolygonTextExample(numToText: real -> string)
    requires numToText(40.0) == "40" && numToText(-74.0) == "-74"
    requires numToText(40.1) == "40.1" && numToText(-73.9) == "-73.9"
    ensures PolygonText(numToText, [LatLng(40.0, -74.0), LatLng(40.1, -74.0), LatLng(40.1, -73.9)])
      == "[40, -74]; [40.1, -74]; [40.1, -73.9]"
  {
    var polygon := [LatLng(40.0, -74.0), LatLng(40.1, -74.0), LatLng(40.1, -73.9)];
    var pieces := seq(|polygon|, k requires 0 <= k < |polygon| => VertexText(numToText, polygon[k]));
    var p0 := "[" + "40" + ", " + "-74" + "]";
    var p1 := "[" + "40.1" + ", " + "-74" + "]";
    var p2 := "[" + "40.1" + ", " + "-73.9" + "]";
    assert pieces == [p0, p1, p2];
    JoinThree(p0, p1, p2, "; ");
    ExampleTextPieces();
  }

  /** The record {1, cell, [(40, -74), (40.1, -74), (40.1, -73.9)]} exports as the
      row 1, cell, "[40, -74]; [40.1, -74]; [40.1, -73.9]". */
  lemma ExportExample(numToText: real -> string, cell: CellId, color: string, center: LatLng)
    requires numToText(40.0) == "40" && numToText(-74.0) == "-74"
    requires numToText(40.1) == "40.1" && numToText(-73.9) == "-73.9"
    ensures CsvData(numToText, [HexagonPolygon(1, cell, [LatLng(40.0, -74.0), LatLng(40.1, -74.0), LatLng(40.1, -73.9)], color, center)])
      == [CsvRow(1, cell, "[40, -74]; [40.1, -74]; [40.1, -73.9]")]
  {
    PolygonTextExample(numToText);
  }
}
