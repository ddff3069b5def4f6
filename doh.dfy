/** The DNS-over-HTTPS report: the `"data"` field of every answer of the IPv4
    document, then of the IPv6 document, one per row of an "Address" table. */
module Doh {
  import opened Tables

  /** One answer record of a decoded DoH response (its string-valued fields). */
  type Answer = map<string, string>

  /** A decoded DoH response, reduced to its list-valued fields (`"Answer"`). */
  type DohDocument = map<string, seq<Answer>>

  /** `doc.get("Answer", [])`. */
  function Answers(doc: DohDocument): (answers: seq<Answer>)
    ensures "Answer" in doc ==> answers == doc["Answer"]
    ensures "Answer" !in doc ==> answers == []
  {
    GetOr(doc, "Answer", [])
  }

  /** `answer.get("data", "")`. */
  function AnswerData(answer: Answer): (data: string)
    ensures "data" in answer ==> data == answer["data"]
    ensures "data" !in answer ==> data == ""
  {
    GetOr(answer, "data", "")
  }

  /** The address of every answer, in order. */
  function DataValues(answers: seq<Answer>): (cells: seq<string>)
    ensures |cells| == |answers|
    ensures forall i :: 0 <= i < |answers| ==> cells[i] == AnswerData(answers[i])
  {
    if answers == [] then [] else [AnswerData(answers[0])] + DataValues(answers[1..])
  }

  /** The rows of the DoH table: IPv4 answers first, then IPv6, though the IPv6
      document is the one read first. */
  function DohRows(doh6: DohDocument, doh4: DohDocument): (rows: seq<Row>)
    ensures |rows| == |Answers(doh4)| + |Answers(doh6)|
    ensures forall i :: 0 <= i < |rows| ==> |rows[i]| == 1
  {
    AddressRows(DataValues(Answers(doh4)) + DataValues(Answers(doh6)))
  }

  /** One more answer appends its address. */
  lemma DataValuesSnoc(answers: seq<Answer>, k: nat)
    requires k < |answers|
    ensures DataValues(answers[..k + 1]) == DataValues(answers[..k]) + [AnswerData(answers[k])]
  {
    var longer, shorter := DataValues(answers[..k + 1]), DataValues(answers[..k]);
    forall i | 0 <= i < k + 1
      ensures longer[i] == (shorter + [AnswerData(answers[k])])[i]
    {
      if i < k {
        assert answers[..k + 1][i] == answers[..k][i];
      }
    }
  }

  /** One `add_row` per answer, each holding the answer's address. */
  method AddAnswerRows(table: Table, answers: seq<Answer>) returns (t: Table)
    ensures t.headers == table.headers
    ensures t.rows == table.rows + AddressRows(DataValues(answers))
  {
    t := table;
    for k := 0 to |answers|
      invariant t.headers == table.headers
      invariant t.rows == table.rows + AddressRows(DataValues(answers[..k]))
    {
      var address := AnswerData(answers[k]);
      DataValuesSnoc(answers, k);
      AddressRowsAppend(DataValues(answers[..k]), [address]);
      assert AddressRows([address]) == [[address]];
      var before := t.rows;
      t := t.AddRow([address]);
      assert t.rows == before + [[address]];
    }
    assert answers[..|answers|] == answers;
  }

  /** Builds the DoH table as the script does, one `add_row` per answer. */
  method DohTable(doh6: DohDocument, doh4: DohDocument) returns (table: Table)
    ensures table.headers == AddressHeaders
    ensures |table.rows| == |Answers(doh4)| + |Answers(doh6)|
    ensures forall i :: 0 <= i < |table.rows| ==> |table.rows[i]| == 1
    ensures forall i :: 0 <= i < |Answers(doh4)| ==>
              table.rows[i] == [AnswerData(Answers(doh4)[i])]
    ensures forall i :: 0 <= i < |Answers(doh6)| ==>
              table.rows[|Answers(doh4)| + i] == [AnswerData(Answers(doh6)[i])]
    ensures "Answer" !in doh4 ==> table.rows == AddressRows(DataValues(Answers(doh6)))
    ensures "Answer" !in doh6 ==> table.rows == AddressRows(DataValues(Answers(doh4)))
    ensures "Answer" !in doh4 && "Answer" !in doh6 ==> table.rows == []
    ensures table.rows == DohRows(doh6, doh4)
  {
    var answers6 := Answers(doh6);
    var answers4 := Answers(doh4);
    var first := AddAnswerRows(Table(AddressHeaders, []), answers4);
    table := AddAnswerRows(first, answers6);
    AddressRowsAppend(DataValues(answers4), DataValues(answers6));
    assert first.rows == AddressRows(DataValues(answers4));
    DohRowsShape(doh6, doh4);
  }

  /** The DoH rows: one single-column row per answer, IPv4 answers first, and a
      document without `"Answer"` contributes no row, so the table is the other
      document's rows alone. */
  lemma DohRowsShape(doh6: DohDocument, doh4: DohDocument)
    ensures |DohRows(doh6, doh4)| == |Answers(doh4)| + |Answers(doh6)|
    ensures forall i :: 0 <= i < |DohRows(doh6, doh4)| ==> |DohRows(doh6, doh4)[i]| == 1
    ensures forall i :: 0 <= i < |Answers(doh4)| ==>
              DohRows(doh6, doh4)[i] == [AnswerData(Answers(doh4)[i])]
    ensures forall i :: 0 <= i < |Answers(doh6)| ==>
              DohRows(doh6, doh4)[|Answers(doh4)| + i] == [AnswerData(Answers(doh6)[i])]
    ensures "Answer" !in doh4 ==> DohRows(doh6, doh4) == AddressRows(DataValues(Answers(doh6)))
    ensures "Answer" !in doh6 ==> DohRows(doh6, doh4) == AddressRows(DataValues(Answers(doh4)))
  {
    var cells6, cells4 := DataValues(Answers(doh6)), DataValues(Answers(doh4));
    if "Answer" !in doh4 {
      assert cells4 == [];
      assert cells4 + cells6 == cells6;
    }
    if "Answer" !in doh6 {
      assert cells6 == [];
      assert cells4 + cells6 == cells4;
    }
  }

  /** Two documents with one answer each give the IPv4 row, then the IPv6 row. */
  lemma DohExample()
    ensures DohRows(map["Answer" := [map["data" := "::1"]]],
                    map["Answer" := [map["data" := "1.1.1.1"]]])
            == [["1.1.1.1"], ["::1"]]
  {
    var doh6: DohDocument := map["Answer" := [map["data" := "::1"]]];
    var doh4: DohDocument := map["Answer" := [map["data" := "1.1.1.1"]]];
    assert DataValues(Answers(doh4)) + DataValues(Answers(doh6)) == ["1.1.1.1", "::1"];
  }
}
