/**
 * The gazetteer: a dictionary from `"city,cc"` to coordinates built from the
 * rows of the cities table, keeping the first row seen for each key.
 */
module Gazetteer {
  import opened Text

  datatype Coords = Coords(lat: real, lon: real)

  /** The columns of one cities-table row that are used: place name, latitude, longitude, country code. */
  datatype Row = Row(name: string, lat: real, lon: real, country: string)

  /** The dictionary key of a row: stripped lower-case name and country code joined by a comma. */
  function RowKey(row: Row): string
  {
    Lower(Strip(row.name)) + "," + Lower(Strip(row.country))
  }

  /** The dictionary after inserting `rows` in order, where a key already present is never overwritten. */
  function GazetteerOf(rows: seq<Row>): (cities: map<string, Coords>)
    ensures forall i :: 0 <= i < |rows| ==> RowKey(rows[i]) in cities
  {
    if rows == [] then map[]
    else
      var before := GazetteerOf(rows[..|rows| - 1]);
      var row := rows[|rows| - 1];
      if RowKey(row) in before then before
      else before[RowKey(row) := Coords(row.lat, row.lon)]
  }

  /** The keys of the dictionary are exactly the keys of the rows. */
  lemma {:induction false} GazetteerKeys(rows: seq<Row>)
    ensures GazetteerOf(rows).Keys == set i | 0 <= i < |rows| :: RowKey(rows[i])
  {
    if rows != [] {
      var init := rows[..|rows| - 1];
      GazetteerKeys(init);
      assert forall i :: 0 <= i < |init| ==> init[i] == rows[i];
    }
  }

  /** Every row's key maps to the coordinates of the earliest row with that key. */
  lemma {:induction false} GazetteerFirstWins(rows: seq<Row>, i: int)
    requires 0 <= i < |rows|
    requires forall j :: 0 <= j < i ==> RowKey(rows[j]) != RowKey(rows[i])
    ensures GazetteerOf(rows)[RowKey(rows[i])] == Coords(rows[i].lat, rows[i].lon)
  {
    var init := rows[..|rows| - 1];
    if i < |rows| - 1 {
      assert forall j :: 0 <= j <= i ==> init[j] == rows[j];
      GazetteerFirstWins(init, i);
    } else {
      assert forall j :: 0 <= j < i ==> init[j] == rows[j];
      assert RowKey(rows[i]) !in GazetteerOf(init) by {
        GazetteerKeys(init);
      }
    }
  }

  /** Rows read later never change an entry already made: the dictionary of a prefix is part of the whole. */
  lemma {:induction false} GazetteerGrows(rows: seq<Row>, n: nat)
    requires n <= |rows|
    ensures forall key :: key in GazetteerOf(rows[..n]) ==>
      key in GazetteerOf(rows) && GazetteerOf(rows)[key] == GazetteerOf(rows[..n])[key]
    decreases |rows|
  {
    if n < |rows| {
      var init := rows[..|rows| - 1];
      assert init[..n] == rows[..n];
      GazetteerGrows(init, n);
    } else {
      assert rows[..n] == rows;
    }
  }

  /** The loop that reads the cities table into the `cities` dictionary. */
  method BuildGazetteer(rows: seq<Row>) returns (cities: map<string, Coords>)
    ensures cities == GazetteerOf(rows)
  {
    cities := map[];
    var i := 0;
    while i < |rows|
      invariant 0 <= i <= |rows|
      invariant cities == GazetteerOf(rows[..i])
    {
      var row := rows[i];
      var key := RowKey(row);
      if key !in cities {
        cities := cities[key := Coords(row.lat, row.lon)];
      }
      assert rows[..i + 1][..i] == rows[..i];
      i := i + 1;
    }
    assert rows[..i] == rows;
  }
}
