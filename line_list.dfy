/** The DNS-over-TLS and plain DNS reports: every line of the IPv4 list, then of
    the IPv6 list, stripped, one per row of an "Address" table. Both reports run
    the same code on different files, so one routine models both. */
module LineList {
  import opened Text
  import opened Tables

  /** Every line stripped, in order, empty results kept. */
  function Stripped(lines: seq<string>): (cells: seq<string>)
    ensures |cells| == |lines|
    ensures forall i :: 0 <= i < |lines| ==> cells[i] == Strip(lines[i])
  {
    if lines == [] then [] else [Strip(lines[0])] + Stripped(lines[1..])
  }

  /** The rows of a line-list table: the first file's lines, then the second's. */
  function LineListRows(lines: seq<string>, lines6: seq<string>): (rows: seq<Row>)
    ensures |rows| == |lines| + |lines6|
    ensures forall i :: 0 <= i < |rows| ==> |rows[i]| == 1
  {
    AddressRows(Stripped(lines) + Stripped(lines6))
  }

  /** Stripping one more line appends its stripped form. */
  lemma StrippedSnoc(lines: seq<string>, k: nat)
    requires k < |lines|
    ensures Stripped(lines[..k + 1]) == Stripped(lines[..k]) + [Strip(lines[k])]
  {
    var longer, shorter := Stripped(lines[..k + 1]), Stripped(lines[..k]);
    forall i | 0 <= i < k + 1
      ensures longer[i] == (shorter + [Strip(lines[k])])[i]
    {
      if i < k {
        assert lines[..k + 1][i] == lines[..k][i];
      }
    }
  }

  /** One `add_row` per line of `lines`, each holding the stripped line. */
  method AddStrippedRows(table: Table, lines: seq<string>) returns (t: Table)
    ensures t.headers == table.headers
    ensures t.rows == table.rows + AddressRows(Stripped(lines))
  {
    t := table;
    for k := 0 to |lines|
      invariant t.headers == table.headers
      invariant t.rows == table.rows + AddressRows(Stripped(lines[..k]))
    {
      var address := Strip(lines[k]);
      StrippedSnoc(lines, k);
      AddressRowsAppend(Stripped(lines[..k]), [address]);
      assert AddressRows([address]) == [[address]];
      var before := t.rows;
      t := t.AddRow([address]);
      assert t.rows == before + [[address]];
    }
    assert lines[..|lines|] == lines;
  }

  /** Builds the table as the script does, one `add_row` per line of `lines`, then
      one per line of `lines6`; nothing is filtered out. */
  method LineListTable(lines: seq<string>, lines6: seq<string>) returns (table: Table)
    ensures table.headers == AddressHeaders
    ensures |table.rows| == |lines| + |lines6|
    ensures forall i :: 0 <= i < |table.rows| ==> |table.rows[i]| == 1
    ensures forall i :: 0 <= i < |lines| ==> table.rows[i] == [Strip(lines[i])]
    ensures forall i :: 0 <= i < |lines6| ==> table.rows[|lines| + i] == [Strip(lines6[i])]
    ensures table.rows == LineListRows(lines, lines6)
  {
    var first := AddStrippedRows(Table(AddressHeaders, []), lines);
    table := AddStrippedRows(first, lines6);
    AddressRowsAppend(Stripped(lines), Stripped(lines6));
    assert first.rows == AddressRows(Stripped(lines));
    LineListRowsShape(lines, lines6);
  }

  /** The line-list rows: one single-column row per line, the first file's lines
      first, each holding its line stripped. */
  lemma LineListRowsShape(lines: seq<string>, lines6: seq<string>)
    ensures |LineListRows(lines, lines6)| == |lines| + |lines6|
    ensures forall i :: 0 <= i < |LineListRows(lines, lines6)| ==> |LineListRows(lines, lines6)[i]| == 1
    ensures forall i :: 0 <= i < |lines| ==> LineListRows(lines, lines6)[i] == [Strip(lines[i])]
    ensures forall i :: 0 <= i < |lines6| ==>
              LineListRows(lines, lines6)[|lines| + i] == [Strip(lines6[i])]
  {
    var a, b := Stripped(lines), Stripped(lines6);
    assert forall i :: 0 <= i < |lines| ==> (a + b)[i] == a[i];
    assert forall i :: 0 <= i < |lines6| ==> (a + b)[|lines| + i] == b[i];
  }

  /** Every cell of a line-list table is already stripped. */
  lemma LineListCellsStripped(lines: seq<string>, lines6: seq<string>, i: nat)
    requires i < |lines| + |lines6|
    ensures |LineListRows(lines, lines6)[i]| == 1
    ensures var cell := LineListRows(lines, lines6)[i][0];
            Strip(cell) == cell
            && (|cell| > 0 ==> !IsWhitespace(cell[0]) && !IsWhitespace(cell[|cell| - 1]))
  {
    LineListRowsShape(lines, lines6);
    var line := if i < |lines| then lines[i] else lines6[i - |lines|];
    assert LineListRows(lines, lines6)[i] == [Strip(line)] by {
      if i >= |lines| {
        assert LineListRows(lines, lines6)[|lines| + (i - |lines|)] == [Strip(lines6[i - |lines|])];
      }
    }
    StripIdempotent(line);
  }

  /** A blank line of either file is kept as a row holding `""`, at its place
      in the concatenation of the two files. */
  lemma BlankLineKept(lines: seq<string>, lines6: seq<string>, i: nat)
    requires i < |lines| + |lines6|
    requires forall k :: 0 <= k < |(lines + lines6)[i]| ==> IsWhitespace((lines + lines6)[i][k])
    ensures LineListRows(lines, lines6)[i] == [""]
  {
    var cells := Stripped(lines) + Stripped(lines6);
    if i < |lines| {
      assert (lines + lines6)[i] == lines[i];
      StripEmptyIff(lines[i]);
      assert cells[i] == Strip(lines[i]);
    } else {
      assert (lines + lines6)[i] == lines6[i - |lines|];
      StripEmptyIff(lines6[i - |lines|]);
      assert cells[i] == Strip(lines6[i - |lines|]);
    }
  }

  /** `"8.8.8.8\n8.8.4.4\n"` and `"2001:4860::1\n"` give three rows in file order. */
  lemma LineListExample()
    ensures LineListRows(["8.8.8.8\n", "8.8.4.4\n"], ["2001:4860::1\n"])
            == [["8.8.8.8"], ["8.8.4.4"], ["2001:4860::1"]]
  {
    StripAddressLines();
    var cells := Stripped(["8.8.8.8\n", "8.8.4.4\n"]) + Stripped(["2001:4860::1\n"]);
    assert cells == ["8.8.8.8", "8.8.4.4", "2001:4860::1"];
    var rows := AddressRows(cells);
    assert rows[0] == ["8.8.8.8"] && rows[1] == ["8.8.4.4"] && rows[2] == ["2001:4860::1"];
  }
}
