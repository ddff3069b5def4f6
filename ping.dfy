/** The ping report: the results list is padded with four "not applicable" IPv6
    entries when it holds only the four IPv4 ones, then entries `i` and `i + 4` are
    paired, with `"time="` removed, into the four rows of an IPv4/IPv6 table. */
module Ping {
  import opened Wrappers
  import opened Text
  import opened Tables

  /** The entry inserted for each missing IPv6 result. */
  const NotAvailable: string := "time=N/A"

  const PingHeaders: seq<string> := ["IPv4", "IPv6"]

  /** Python's `IndexError` on `results[index]`, which ends the whole run. */
  datatype PingError = IndexError(index: nat)

  /** Python's `list.insert(i, x)` for a non-negative `i`: an index past the end
      appends. */
  function Insert(s: seq<string>, i: nat, x: string): (r: seq<string>)
    ensures |r| == |s| + 1
    ensures var p := if i <= |s| then i else |s|;
            r[..p] == s[..p] && r[p] == x && r[p + 1..] == s[p..]
  {
    if i <= |s| then s[..i] + [x] + s[i..] else s + [x]
  }

  /** The results after padding: four IPv4 results get four `"time=N/A"` entries
      after them; any other list is left as it is. */
  function Padded(results: seq<string>): (padded: seq<string>)
    ensures |results| == 4 ==>
              && |padded| == 8
              && padded[..4] == results
              && forall i :: 4 <= i < 8 ==> padded[i] == NotAvailable
    ensures |results| != 4 ==> padded == results
  {
    if |results| == 4 then results + [NotAvailable, NotAvailable, NotAvailable, NotAvailable]
    else results
  }

  /** Pads the list as the script does, by four inserts at indices 4 to 7. */
  method PadResults(results: seq<string>) returns (padded: seq<string>)
    ensures padded == Padded(results)
    ensures |results| == 4 ==>
              && |padded| == 8
              && padded[..4] == results
              && forall i :: 4 <= i < 8 ==> padded[i] == NotAvailable
    ensures |results| != 4 ==> padded == results
  {
    padded := results;
    if |padded| == 4 {
      padded := Insert(padded, 4, NotAvailable);
      padded := Insert(padded, 5, NotAvailable);
      padded := Insert(padded, 6, NotAvailable);
      padded := Insert(padded, 7, NotAvailable);
    }
  }

  /** The four rows of lines 77-80: row `i` pairs entry `i` with entry `i + 4`. */
  function PingRows(p: seq<string>): (rows: seq<Row>)
    requires |p| >= 8
    ensures |rows| == 4
    ensures forall i :: 0 <= i < 4 ==> |rows[i]| == 2 && rows[i] == [Clean(p[i]), Clean(p[i + 4])]
  {
    [ [Clean(p[0]), Clean(p[4])],
      [Clean(p[1]), Clean(p[5])],
      [Clean(p[2]), Clean(p[6])],
      [Clean(p[3]), Clean(p[7])] ]
  }

  /** The indices that the four `add_row` calls read, in the order Python reads them. */
  const ReadOrder: seq<nat> := [0, 4, 1, 5, 2, 6, 3, 7]

  /** The position in `order` of the first index that is out of range for a list
      of length `n`, or `|order|` when every index is in range. */
  function FirstOutOfRange(order: seq<nat>, n: nat): (j: nat)
    ensures j <= |order|
    ensures forall m :: 0 <= m < j ==> order[m] < n
    ensures j < |order| ==> n <= order[j]
  {
    if order == [] || n <= order[0] then 0 else 1 + FirstOutOfRange(order[1..], n)
  }

  /** Every read is in range exactly when the list has at least eight entries. */
  lemma ReadsInRange(n: nat)
    ensures FirstOutOfRange(ReadOrder, n) == |ReadOrder| <==> 8 <= n
  {
    assert forall m :: 0 <= m < |ReadOrder| ==> ReadOrder[m] <= 7;
    assert ReadOrder[7] == 7;
  }

  /** Pads the results and builds the table, or fails with the `IndexError` that
      the first out-of-range read raises. */
  method PingTable(results: seq<string>) returns (r: Result<Table, PingError>)
    ensures r.Success? <==> |results| == 4 || 8 <= |results|
    ensures r.Success? ==> r.value == Table(PingHeaders, PingRows(Padded(results)))
    ensures r.Failure? ==>
              var j := FirstOutOfRange(ReadOrder, |Padded(results)|);
              j < |ReadOrder| && r.error == IndexError(ReadOrder[j])
  {
    var padded := PadResults(results);
    var j := FirstOutOfRange(ReadOrder, |padded|);
    ReadsInRange(|padded|);
    if j < |ReadOrder| {
      return Failure(IndexError(ReadOrder[j]));
    }
    var table := Table(PingHeaders, []);
    table := table.AddRow([Clean(padded[0]), Clean(padded[4])]);
    table := table.AddRow([Clean(padded[1]), Clean(padded[5])]);
    table := table.AddRow([Clean(padded[2]), Clean(padded[6])]);
    table := table.AddRow([Clean(padded[3]), Clean(padded[7])]);
    assert table == Table(PingHeaders, PingRows(padded));
    r := Success(table);
  }

  /** The index of the failing read: `results[0]` for an empty list, `results[4]`
      for one to three entries, and the first missing IPv6 entry for five to seven. */
  lemma FailingIndex(n: nat)
    requires n < 8 && n != 4
    ensures var j := FirstOutOfRange(ReadOrder, n);
            j < |ReadOrder| && ReadOrder[j] == (if n == 0 then 0 else if n < 4 then 4 else n)
  {
    var j := FirstOutOfRange(ReadOrder, n);
    assert ReadOrder[7] == 7;
    if n == 0 {
      assert j == 0;
    } else if n < 4 {
      assert ReadOrder[0] < n;
      assert j == 1;
    } else if n == 5 {
      assert ReadOrder[2] < n;
      assert j == 3;
    } else if n == 6 {
      assert ReadOrder[4] < n;
      assert j == 5;
    } else {
      assert ReadOrder[6] < n;
      assert j == 7;
    }
  }

  /** Entries after index 7 are never read. */
  lemma PingRowsIgnoreTail(p: seq<string>)
    requires |p| >= 8
    ensures PingRows(p) == PingRows(p[..8])
  {
  }

  /** With IPv4 results only, every IPv6 cell reads `"N/A"`. */
  lemma IPv4OnlyRows(results: seq<string>)
    requires |results| == 4
    ensures forall i :: 0 <= i < 4 ==>
              PingRows(Padded(results))[i] == [Clean(results[i]), "N/A"]
  {
    CleanNotAvailable();
  }

  /** Four IPv4 results `"time=10ms"`, ... give the rows ("10ms", "N/A"), ... */
  lemma PingExample()
    ensures PingRows(Padded(["time=10ms", "time=12ms", "time=11ms", "time=13ms"]))
            == [["10ms", "N/A"], ["12ms", "N/A"], ["11ms", "N/A"], ["13ms", "N/A"]]
  {
    IPv4OnlyRows(["time=10ms", "time=12ms", "time=11ms", "time=13ms"]);
    assert "time=10ms" == TimeLabel + "10ms" && !Occurs("10ms", TimeLabel);
    CleanLabelledValue("10ms");
    assert "time=12ms" == TimeLabel + "12ms" && !Occurs("12ms", TimeLabel);
    CleanLabelledValue("12ms");
    assert "time=11ms" == TimeLabel + "11ms" && !Occurs("11ms", TimeLabel);
    CleanLabelledValue("11ms");
    assert "time=13ms" == TimeLabel + "13ms" && !Occurs("13ms", TimeLabel);
    CleanLabelledValue("13ms");
  }
}
