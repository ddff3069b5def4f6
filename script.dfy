/** The whole script: the four reports in their fixed order. A ping list that
    cannot fill the table raises `IndexError` after the first three reports were
    printed, and ends the run. */
module Script {
  import opened Wrappers
  import opened Tables
  import opened Doh
  import opened LineList
  import opened Ping

  /** The contents of the seven input files, already read and decoded. */
  datatype Inputs = Inputs(
    doh6: DohDocument, doh4: DohDocument,
    dot: seq<string>, dot6: seq<string>,
    dns: seq<string>, dns6: seq<string>,
    pingResults: seq<string>)

  /** What a run prints, report by report, and the fault that ended it, if any. */
  datatype Outcome = Outcome(reports: seq<Report>, fault: Option<PingError>)

  /** Runs the four reporters one after the other. */
  method Run(inputs: Inputs) returns (out: Outcome)
    ensures out.fault.None? <==> |inputs.pingResults| == 4 || 8 <= |inputs.pingResults|
    ensures |out.reports| == if out.fault.None? then 4 else 3
    ensures out.fault.Some? ==>
              var j := FirstOutOfRange(ReadOrder, |Padded(inputs.pingResults)|);
              j < |ReadOrder| && out.fault.value == IndexError(ReadOrder[j])
    ensures out.reports[0] == Report("DOH results", Table(AddressHeaders, DohRows(inputs.doh6, inputs.doh4)))
    ensures out.reports[1] == Report("DOT results", Table(AddressHeaders, LineListRows(inputs.dot, inputs.dot6)))
    ensures out.reports[2] == Report("DNS results", Table(AddressHeaders, LineListRows(inputs.dns, inputs.dns6)))
    ensures out.fault.None? ==>
              out.reports[3] == Report("Ping results", Table(PingHeaders, PingRows(Padded(inputs.pingResults))))
  {
    var doh := DohTable(inputs.doh6, inputs.doh4);
    var dohReport := Report("DOH results", doh);
    var dot := LineListTable(inputs.dot, inputs.dot6);
    var dotReport := Report("DOT results", dot);
    var dns := LineListTable(inputs.dns, inputs.dns6);
    var dnsReport := Report("DNS results", dns);
    var ping := PingTable(inputs.pingResults);
    match ping {
      case Success(table) =>
        out := Outcome([dohReport, dotReport, dnsReport, Report("Ping results", table)], None);
      case Failure(e) =>
        out := Outcome([dohReport, dotReport, dnsReport], Some(e));
    }
  }
}
