/**
 * The program entry (logAnalyzer.py lines 95-96): parse the log, then write
 * the report. Argument parsing, the file-existence check and the messages are
 * left out; the log arrives as its lines and the report leaves as its text.
 */
module Program {
  import opened Wrappers
  import opened Chars
  import Addresses
  import opened OrderedTable
  import opened Analyzer
  import opened Report

  /** Addresses consist of word characters, `.` and `:`, so none spans two report lines. */
  lemma AggregateKeysSingleLine(lines: seq<string>)
    ensures SingleLineKeys(Aggregate(lines))
  {
    var t := Aggregate(lines);
    forall i | 0 <= i < |t|
      ensures Lacks(t[i].ip, '\n')
    {
      KeySingleLine(lines, t, i);
    }
  }

  lemma KeySingleLine(lines: seq<string>, t: Table, i: nat)
    requires t == Aggregate(lines) && i < |t|
    ensures Lacks(t[i].ip, '\n')
  {
    var k := t[i].ip;
    assert Keys(t)[i] == k;
    assert k in Keys(t);
    var _ := AggregateKeysFromLines(lines, k);
    Addresses.AddressCharsSingleLine(k);
  }

  /**
   * `writeOutputFile(parseSuccessIPs(log))`: no report exactly when no line
   * counted for an address, and otherwise a report that reads back as the table
   * of counts.
   */
  function Run(lines: seq<string>): (file: Option<string>)
    ensures file.None? <==> CountedLines(lines) == 0
    ensures file.Some? ==> ParseReport(file.value) == Some(Aggregate(lines))
  {
    var ipTable := Aggregate(lines);
    AggregateTotal(lines);
    TotalZero(ipTable);
    AggregateKeysSingleLine(lines);
    WriteOutputFile(ipTable)
  }
}
