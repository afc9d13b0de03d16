/**
 * The text `writeOutputFile` produces (logAnalyzer.py lines 59-71): one line
 * `"{0} {1}\n".format(ip, count)` per entry, in table order, or nothing at all
 * (and a `False` result) when the table is empty. Opening and writing the file
 * is left out: the result is the text the file would hold.
 *
 * To state what the text means, the module also reads a report back: split it
 * into newline-terminated lines, and split each line at its last space.
 */
module Report {
  import opened Wrappers
  import opened Chars
  import opened OrderedTable

  function DigitChar(d: nat): (c: char)
    requires d < 10
    ensures IsDigit(c)
  {
    (('0' as int) + d) as char
  }

  function DigitValue(c: char): (d: nat)
    requires IsDigit(c)
    ensures d < 10 && DigitChar(d) == c
  {
    (c as int) - ('0' as int)
  }

  /** Python's decimal rendering of a natural number: no leading zero except for `0` itself. */
  function Itos(n: nat): (s: string)
    ensures |s| >= 1 && AllDigits(s)
    ensures s[0] == '0' ==> n == 0 && |s| == 1
    decreases n
  {
    if n < 10 then [DigitChar(n)] else Itos(n / 10) + [DigitChar(n % 10)]
  }

  /** The value of a string of decimal digits. */
  function DigitsValue(s: string): nat
    requires AllDigits(s)
    decreases |s|
  {
    if |s| == 0 then 0 else 10 * DigitsValue(s[..|s| - 1]) + DigitValue(s[|s| - 1])
  }

  /** Reads a count: one or more decimal digits. */
  function ParseNat(s: string): (r: Option<nat>)
    ensures r.Some? <==> |s| >= 1 && AllDigits(s)
  {
    if |s| >= 1 && AllDigits(s) then Some(DigitsValue(s)) else None
  }

  /** Reading back a rendered count gives the count. */
  lemma {:induction false} ItosRoundTrip(n: nat)
    ensures ParseNat(Itos(n)) == Some(n)
    decreases n
  {
    var s := Itos(n);
    if n >= 10 {
      ItosRoundTrip(n / 10);
      assert s[..|s| - 1] == Itos(n / 10);
      assert DigitValue(s[|s| - 1]) == n % 10;
    } else {
      assert DigitValue(s[0]) == n;
      assert s[..0] == [];
      assert DigitsValue(s) == 10 * DigitsValue(s[..0]) + DigitValue(s[0]);
    }
  }

  /**
   * One line of the report: `"{0} {1}\n".format(ip, count)`. It ends in a
   * newline, reads back as the entry, and holds no other newline when the
   * address holds none.
   */
  function RenderLine(e: Entry): (r: string)
    ensures |r| >= 1 && r[|r| - 1] == '\n'
    ensures ParseLine(r[..|r| - 1]) == Some(e)
    ensures Lacks(e.ip, '\n') ==> multiset(r)['\n'] == 1
  {
    var a := e.ip + " " + Itos(e.count);
    RenderLineRoundTrip(e);
    assert (a + "\n")[..|a|] == a;
    assert Lacks(e.ip, '\n') ==> '\n' !in multiset(a) by {
      if Lacks(e.ip, '\n') {
        LineLacksNewline(e);
      }
    }
    a + "\n"
  }

  /**
   * The whole report: the lines of the entries in table order. It is empty
   * exactly when the table is, ends in a newline otherwise, and holds one
   * newline per entry when no address holds one.
   */
  function Render(t: Table): (r: string)
    ensures r == [] <==> |t| == 0
    ensures |t| > 0 ==> r[|r| - 1] == '\n'
    ensures SingleLineKeys(t) ==> multiset(r)['\n'] == |t|
    decreases |t|
  {
    if |t| == 0 then []
    else
      assert SingleLineKeys(t) ==> Lacks(t[0].ip, '\n') && SingleLineKeys(t[1..]) by {
        if SingleLineKeys(t) {
          SingleLineTail(t);
        }
      }
      RenderLine(t[0]) + Render(t[1..])
  }

  // ---- Reading a report back ----

  /** The position of the first newline. */
  function FirstNewline(s: string): (r: Option<nat>)
    ensures r.None? ==> Lacks(s, '\n')
    ensures r.Some? ==> r.value < |s| && s[r.value] == '\n' && Lacks(s[..r.value], '\n')
  {
    if |s| == 0 then None
    else if s[0] == '\n' then Some(0)
    else
      match FirstNewline(s[1..])
      case None => None
      case Some(j) =>
        assert s[..j + 1] == [s[0]] + s[1..][..j];
        Some(j + 1)
  }

  /** The position of the last space. */
  function LastSpace(s: string): (r: Option<nat>)
    ensures r.None? ==> Lacks(s, ' ')
    ensures r.Some? ==> r.value < |s| && s[r.value] == ' ' && Lacks(s[r.value + 1..], ' ')
  {
    if |s| == 0 then None
    else if s[|s| - 1] == ' ' then Some(|s| - 1)
    else LastSpace(s[..|s| - 1])
  }

  /** One report line without its newline, split at its last space into address and count. */
  function ParseLine(line: string): Option<Entry> {
    match LastSpace(line)
    case None => None
    case Some(j) =>
      match ParseNat(line[j + 1..])
      case None => None
      case Some(n) => Some(Entry(line[..j], n))
  }

  /** A report read line by line; every line must end in a newline. */
  function ParseReport(text: string): Option<Table>
    decreases |text|
  {
    if |text| == 0 then Some([])
    else
      match FirstNewline(text)
      case None => None
      case Some(j) =>
        match ParseLine(text[..j])
        case None => None
        case Some(e) =>
          match ParseReport(text[j + 1..])
          case None => None
          case Some(rest) => Some([e] + rest)
  }

  /** The last space of `a + " " + b` is the one between them when `b` has none. */
  lemma {:induction false} LastSpaceSplit(a: string, b: string)
    requires Lacks(b, ' ')
    ensures LastSpace(a + " " + b) == Some(|a|)
    decreases |b|
  {
    var s := a + " " + b;
    if |b| > 0 {
      var b' := b[..|b| - 1];
      assert s[..|s| - 1] == a + " " + b';
      LastSpaceSplit(a, b');
    }
  }

  /** Each rendered line reads back as its entry: the count has no space, so the last space is the separator. */
  lemma RenderLineRoundTrip(e: Entry)
    ensures ParseLine(e.ip + " " + Itos(e.count)) == Some(e)
  {
    var digits := Itos(e.count);
    var line := e.ip + " " + digits;
    LastSpaceSplit(e.ip, digits);
    assert line[|e.ip| + 1..] == digits;
    assert line[..|e.ip|] == e.ip;
    ItosRoundTrip(e.count);
  }

  /** The first newline of a rendered line followed by anything is its own. */
  lemma {:induction false} FirstNewlineSplit(a: string, rest: string)
    requires Lacks(a, '\n')
    ensures FirstNewline(a + "\n" + rest) == Some(|a|)
    decreases |a|
  {
    if |a| > 0 {
      assert (a + "\n" + rest)[1..] == a[1..] + "\n" + rest;
      FirstNewlineSplit(a[1..], rest);
    }
  }

  /** No address of the table contains a newline. */
  predicate SingleLineKeys(t: Table) {
    forall i :: 0 <= i < |t| ==> Lacks(t[i].ip, '\n')
  }

  /** Reading the rendered report back gives the table, entry by entry and in order. */
  lemma {:induction false} ReportRoundTrip(t: Table)
    requires SingleLineKeys(t)
    ensures ParseReport(Render(t)) == Some(t)
    decreases |t|
  {
    if |t| > 0 {
      var e := t[0];
      var a := e.ip + " " + Itos(e.count);
      LineLacksNewline(e);
      RenderLineRoundTrip(e);
      SingleLineTail(t);
      ReportRoundTrip(t[1..]);
      ParseReportCons(a, Render(t[1..]), e, t[1..]);
      RenderCons(t);
    }
  }

  lemma SingleLineTail(t: Table)
    requires |t| > 0 && SingleLineKeys(t)
    ensures Lacks(t[0].ip, '\n') && SingleLineKeys(t[1..])
  {
    assert forall i :: 0 <= i < |t| - 1 ==> t[1..][i] == t[i + 1];
  }

  lemma RenderCons(t: Table)
    requires |t| > 0
    ensures Render(t) == (t[0].ip + " " + Itos(t[0].count)) + "\n" + Render(t[1..])
    ensures t == [t[0]] + t[1..]
  {
    assert Render(t) == RenderLine(t[0]) + Render(t[1..]);
    assert RenderLine(t[0]) == (t[0].ip + " " + Itos(t[0].count)) + "\n";
  }

  /** A rendered line, without its newline, has none inside when the address has none. */
  lemma LineLacksNewline(e: Entry)
    requires Lacks(e.ip, '\n')
    ensures Lacks(e.ip + " " + Itos(e.count), '\n')
  {
    var a := e.ip + " " + Itos(e.count);
    forall j | 0 <= j < |a|
      ensures a[j] != '\n'
    {
      if j > |e.ip| {
        assert a[j] == Itos(e.count)[j - |e.ip| - 1];
      }
    }
  }

  /** A line that reads back as `e`, then a report that reads back as `es`, read back as `[e] + es`. */
  lemma ParseReportCons(a: string, rest: string, e: Entry, es: Table)
    requires Lacks(a, '\n') && ParseLine(a) == Some(e) && ParseReport(rest) == Some(es)
    ensures ParseReport(a + "\n" + rest) == Some([e] + es)
  {
    var text := a + "\n" + rest;
    FirstNewlineSplit(a, rest);
    assert text[..|a|] == a;
    assert text[|a| + 1..] == rest;
  }

  /**
   * `writeOutputFile`: `None` when the table is empty (nothing is written and the
   * call returns `False`), otherwise the text of the file, which reads back as
   * the table.
   */
  function WriteOutputFile(ipTable: Table): (file: Option<string>)
    ensures file.None? <==> |ipTable| == 0
    ensures file.Some? && SingleLineKeys(ipTable) ==> ParseReport(file.value) == Some(ipTable)
  {
    if |ipTable| == 0 then None
    else
      var text := Render(ipTable);
      assert SingleLineKeys(ipTable) ==> ParseReport(text) == Some(ipTable) by {
        if SingleLineKeys(ipTable) {
          ReportRoundTrip(ipTable);
        }
      }
      Some(text)
  }
}
