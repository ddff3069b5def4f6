/** The reports the script prints: a title line and a table of string cells.
    Only what a table holds is modelled; its bordered rendering is not. */
module Tables {

  type Row = seq<string>

  /** A table: its column headers and its rows, in the order they were added. */
  datatype Table = Table(headers: seq<string>, rows: seq<Row>) {

    /** `table.add_row(row)`. */
    function AddRow(row: Row): (t: Table)
      ensures t.headers == headers
      ensures |t.rows| == |rows| + 1
      ensures t.rows[..|rows|] == rows && t.rows[|rows|] == row
    {
      Table(headers, rows + [row])
    }
  }

  /** One printed section: a blank line, `title`, then `table`. */
  datatype Report = Report(title: string, table: Table)

  /** The header of the three address tables. */
  const AddressHeaders: seq<string> := ["Address"]

  /** Python's `m.get(key, default)`. */
  function GetOr<K, V>(m: map<K, V>, key: K, default: V): (v: V)
    ensures key in m ==> v == m[key]
    ensures key !in m ==> v == default
  {
    if key in m then m[key] else default
  }

  /** A single-column table body: one row per cell, in order. */
  function AddressRows(cells: seq<string>): (rows: seq<Row>)
    ensures |rows| == |cells|
    ensures forall i :: 0 <= i < |cells| ==> rows[i] == [cells[i]]
  {
    if cells == [] then [] else [[cells[0]]] + AddressRows(cells[1..])
  }

  /** The rows of two cell lists added one after the other are the rows of the
      first list followed by the rows of the second. */
  lemma AddressRowsAppend(a: seq<string>, b: seq<string>)
    ensures AddressRows(a + b) == AddressRows(a) + AddressRows(b)
  {
    var joined, parts := AddressRows(a + b), AddressRows(a) + AddressRows(b);
    assert |joined| == |parts|;
    forall i | 0 <= i < |a| + |b| ensures joined[i] == parts[i] {
      if i < |a| {
        assert (a + b)[i] == a[i];
        assert parts[i] == AddressRows(a)[i];
      } else {
        assert (a + b)[i] == b[i - |a|];
        assert parts[i] == AddressRows(b)[i - |a|];
      }
    }
  }
}
