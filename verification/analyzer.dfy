/**
 * `parseSuccessIPs` (logAnalyzer.py lines 29-56): each line is matched against
 * the two address patterns and the status pattern, and when `'200'` is among
 * the captured codes the matched address is counted in the ordered table.
 * Reading the file is left to the caller: the log is a sequence of lines.
 */
module Analyzer {
  import opened Wrappers
  import opened Chars
  import opened Addresses
  import opened Status
  import opened OrderedTable

  /** The loop body, lines 39-55: two independent checks, IPv4 first. */
  function Step(t: Table, line: string): (r: Table)
    requires Distinct(Keys(t))
    ensures Distinct(Keys(r))
    ensures !Qualifies(line) ==> r == t
  {
    var ip4 := Ip4(line);
    var ip6 := Ip6(line);
    var stat := Codes(line);
    var t1 := if ip4.Some? && Success in stat then Bump(t, ip4.value) else t;
    if ip6.Some? && Success in stat then Bump(t1, ip6.value) else t1
  }

  /** A line keeps the representation invariant of the table. */
  lemma StepValid(t: Table, line: string)
    requires Valid(t)
    ensures Valid(Step(t, line))
  {
    var ip4 := Ip4(line);
    var ip6 := Ip6(line);
    var t1 := if ip4.Some? && Success in Codes(line) then Bump(t, ip4.value) else t;
    if ip4.Some? && Success in Codes(line) {
      BumpValid(t, ip4.value);
    }
    if ip6.Some? && Success in Codes(line) {
      BumpValid(t1, ip6.value);
    }
  }

  /**
   * The address a line counts for: its IPv4 match, else its IPv6 match, provided
   * the line qualifies. A qualifying line has a key exactly when one of the two
   * patterns matches, and since no line matches both, the IPv4-first order
   * decides nothing: the key is whichever match there is.
   */
  function Key(line: string): (k: Option<string>)
    ensures k.Some? <==> Qualifies(line) && (Ip4(line).Some? || Ip6(line).Some?)
    ensures Qualifies(line) && Ip4(line).Some? ==> k == Ip4(line)
    ensures Qualifies(line) && Ip6(line).Some? ==> k == Ip6(line)
  {
    Ip4ExcludesIp6(line);
    if !Qualifies(line) then None
    else if Ip4(line).Some? then Ip4(line)
    else Ip6(line)
  }

  /**
   * A line changes the table in at most one way: nothing happens when it has no
   * key, and otherwise exactly its key is bumped (the two checks never both fire).
   */
  lemma StepBumpsKey(t: Table, line: string)
    requires Distinct(Keys(t))
    ensures Key(line).None? ==> Step(t, line) == t
    ensures Key(line).Some? ==> Step(t, line) == Bump(t, Key(line).value)
  {
    Ip4ExcludesIp6(line);
  }

  /** Per line: the count of the line's key goes up by one, every other count stays. */
  lemma StepCount(t: Table, line: string, x: string)
    requires Distinct(Keys(t))
    ensures Count(Step(t, line), x) == Count(t, x) + (if Key(line) == Some(x) then 1 else 0)
  {
    StepBumpsKey(t, line);
    if Key(line).Some? {
      BumpCount(t, Key(line).value, x);
    }
  }

  /** A line in which `"GET ` never occurs, an empty line among them, leaves the table as it is. */
  lemma NoRequestKeepsTable(t: Table, line: string)
    requires Distinct(Keys(t))
    requires forall j: nat :: !GetAt(line, j)
    ensures Step(t, line) == t
  {
    NoGetNoCodes(line);
  }

  /** A shaped address followed by a space is exactly what the patterns extract from the line. */
  lemma AddressBeforeSpace(line: string, ip: string, m: string)
    requires ip <= line && |ip| < |line| && line[|ip|] == ' '
    requires ip <= m && m <= line && AddressChars(m)
    ensures m == ip
  {
  }

  /**
   * A log line that starts with an address and a space, then holds one
   * `"GET ... HTTP/1.1" 200` request, counts once for exactly that address.
   * The text around the request may hold other quoted fields, as the Combined
   * Log Format's referrer and user agent, provided no other `"GET ` occurs and
   * no further tail follows the request.
   */
  lemma RequestLineCounts(t: Table, ip: string, gap: string, mid: string, post: string)
    requires Distinct(Keys(t))
    requires Ip4Shaped(ip) || Ip6Shaped(ip)
    requires |gap| >= 1 && gap[0] == ' '
    requires forall j: nat :: !GetAt(gap, j)
    requires Lacks(mid, '\n')
    requires forall j: nat :: !GetAt(post, j)
    requires forall q: nat :: TailAt(post, q).None?
    ensures var line := ip + gap + Request(mid, ' ', Success) + post;
            && Key(line) == Some(ip)
            && Count(Step(t, line), ip) == Count(t, ip) + 1
  {
    var pre := ip + gap;
    var line := pre + Request(mid, ' ', Success) + post;
    AddressHasNoSpace(ip);
    GetFreeAfterQuoteless(ip, gap);
    SoleRequest(pre, mid, ' ', Success, post);
    assert ip <= line && line[|ip|] == ' ';
    Ip4ExcludesIp6(line);
    if Ip4Shaped(ip) {
      Ip4Longest(line, ip);
      AddressHasNoSpace(Ip4(line).value);
      AddressBeforeSpace(line, ip, Ip4(line).value);
    } else {
      Ip6Longest(line, ip);
      AddressHasNoSpace(Ip6(line).value);
      AddressBeforeSpace(line, ip, Ip6(line).value);
    }
    StepCount(t, line, ip);
  }

  /**
   * A Combined Log Format line, with quoted referrer and user agent after the
   * request, counts for its address:
   * `1.2.3.4 - - [d] "GET / HTTP/1.1" 200 512 "-" "curl/8"`.
   */
  lemma CombinedLogLine(t: Table)
    requires Distinct(Keys(t))
    ensures Key(ExampleLine) == Some("1.2.3.4")
    ensures Count(Step(t, ExampleLine), "1.2.3.4") == Count(t, "1.2.3.4") + 1
  {
    assert SplitsAs("1.2.3.4", ["1", "2", "3", "4"], Digit, 3, '.', 4);
    ExampleGap();
    ExampleTrailer();
    RequestLineCounts(t, "1.2.3.4", ExampleGapText, "/", ExampleTrailerText);
  }

  const ExampleLine: string := "1.2.3.4" + ExampleGapText + Request("/", ' ', Success) + ExampleTrailerText

  /** Identity, user and timestamp fields between the address and the request of the example line. */
  const ExampleGapText: string := " - - [d] "

  /** Size, referrer and user agent after the request of the example line. */
  const ExampleTrailerText: string := " 512 \"-\" \"curl/8\""

  lemma ExampleGap()
    ensures forall j: nat :: !GetAt(ExampleGapText, j)
  {
    var g := ExampleGapText;
    assert Lacks(g, '"');
    forall j: nat
      ensures !GetAt(g, j)
    {
      if j + |Get| <= |g| {
        assert g[j..j + |Get|][0] == g[j];
      }
    }
  }

  lemma ExampleTrailer()
    ensures forall j: nat :: !GetAt(ExampleTrailerText, j)
    ensures forall q: nat :: TailAt(ExampleTrailerText, q).None?
  {
    var p := ExampleTrailerText;
    forall j: nat
      ensures !GetAt(p, j)
    {
      if j + |Get| <= |p| {
        assert p[j..j + |Get|][1] == p[j + 1];
        assert j in {0, 1, 2, 3, 4, 5, 6, 7, 8, 9, 10, 11, 12};
      }
    }
    forall q: nat
      ensures TailAt(p, q).None?
    {
      if q + TailLength <= |p| {
        assert p[q..q + TailLength][..7][1] == p[q + 1];
        assert q in {0, 1, 2, 3};
      }
    }
  }

  /** Every key a line can insert is a prefix of the line shaped as an IPv4 or IPv6 address, without whitespace. */
  lemma KeyShape(line: string)
    requires Key(line).Some?
    ensures Key(line).value <= line
    ensures Ip4Shaped(Key(line).value) || Ip6Shaped(Key(line).value)
    ensures AddressChars(Key(line).value)
  {
    AddressHasNoSpace(Key(line).value);
  }

  /** The whole pass, lines 33-56: the loop body folded over the lines from an empty table. */
  function Aggregate(lines: seq<string>): (t: Table)
    ensures Valid(t)
    decreases |lines|
  {
    if |lines| == 0 then []
    else
      var t := Aggregate(lines[..|lines| - 1]);
      StepValid(t, lines[|lines| - 1]);
      Step(t, lines[|lines| - 1])
  }

  /** One more line extends the aggregate by one step. */
  lemma AggregateNext(lines: seq<string>, i: nat)
    requires i < |lines|
    ensures Aggregate(lines[..i + 1]) == Step(Aggregate(lines[..i]), lines[i])
  {
    assert lines[..i + 1][..i] == lines[..i];
  }

  lemma AggregateSnoc(a: seq<string>, x: string)
    ensures Aggregate(a + [x]) == Step(Aggregate(a), x)
  {
    assert (a + [x])[..|a|] == a;
  }

  lemma ShiftFirst(a: seq<string>, b: seq<string>)
    requires |b| > 0
    ensures a + b == (a + [b[0]]) + b[1..]
  {
  }

  /** The loop body folded over `lines`, starting from any table. */
  function FoldLines(t: Table, lines: seq<string>): (r: Table)
    requires Distinct(Keys(t))
    ensures Distinct(Keys(r))
    decreases |lines|
  {
    if |lines| == 0 then t else FoldLines(Step(t, lines[0]), lines[1..])
  }

  /** The keys of the counted lines, in line order, repeats included. */
  function Extracted(lines: seq<string>): seq<string>
    decreases |lines|
  {
    if |lines| == 0 then []
    else
      var rest := Extracted(lines[..|lines| - 1]);
      match Key(lines[|lines| - 1])
      case Some(k) => rest + [k]
      case None => rest
  }

  /** How many lines count for address `k`. */
  function LinesWithKey(lines: seq<string>, k: string): nat
    decreases |lines|
  {
    if |lines| == 0 then 0
    else LinesWithKey(lines[..|lines| - 1], k) + (if Key(lines[|lines| - 1]) == Some(k) then 1 else 0)
  }

  /** How many lines count for some address. */
  function CountedLines(lines: seq<string>): nat
    decreases |lines|
  {
    if |lines| == 0 then 0
    else CountedLines(lines[..|lines| - 1]) + (if Key(lines[|lines| - 1]).Some? then 1 else 0)
  }

  /** The count of every address is the number of lines that count for it. */
  lemma {:induction false} AggregateCount(lines: seq<string>, k: string)
    ensures Count(Aggregate(lines), k) == LinesWithKey(lines, k)
    decreases |lines|
  {
    if |lines| > 0 {
      AggregateCount(lines[..|lines| - 1], k);
      StepCount(Aggregate(lines[..|lines| - 1]), lines[|lines| - 1], k);
    }
  }

  /** The counts add up to the number of counted lines. */
  lemma {:induction false} AggregateTotal(lines: seq<string>)
    ensures Total(Aggregate(lines)) == CountedLines(lines)
    decreases |lines|
  {
    if |lines| > 0 {
      var t := Aggregate(lines[..|lines| - 1]);
      var line := lines[|lines| - 1];
      AggregateTotal(lines[..|lines| - 1]);
      StepBumpsKey(t, line);
      if Key(line).Some? {
        BumpTotal(t, Key(line).value);
      }
    }
  }

  /** The keys are the distinct addresses of the counted lines, in order of first appearance. */
  lemma {:induction false} AggregateOrder(lines: seq<string>)
    ensures Keys(Aggregate(lines)) == Dedup(Extracted(lines))
    decreases |lines|
  {
    if |lines| > 0 {
      var p := lines[..|lines| - 1];
      var line := lines[|lines| - 1];
      var t := Aggregate(p);
      AggregateOrder(p);
      StepBumpsKey(t, line);
      match Key(line)
      case None =>
      case Some(k) => DedupStep(t, Extracted(p), k);
    }
  }

  /** Bumping `k` into a table whose keys are the first appearances of `e` gives those of `e + [k]`. */
  lemma DedupStep(t: Table, e: seq<string>, k: string)
    requires Distinct(Keys(t)) && Keys(t) == Dedup(e)
    ensures Keys(Bump(t, k)) == Dedup(e + [k])
  {
    assert (e + [k])[..|e|] == e;
    if k !in Keys(t) {
      assert Keys(t + [Entry(k, 1)]) == Keys(t) + [k];
    }
  }

  /** Key order follows first appearance: an earlier key first counted on an earlier line. */
  lemma AggregateFirstSeen(lines: seq<string>)
    ensures var ks := Keys(Aggregate(lines));
            forall i, j :: 0 <= i < j < |ks| ==>
              && ks[i] in Extracted(lines) && ks[j] in Extracted(lines)
              && FirstIndex(Extracted(lines), ks[i]) < FirstIndex(Extracted(lines), ks[j])
  {
    var e := Extracted(lines);
    AggregateOrder(lines);
    DedupOrder(e);
  }

  /** Every key of the extracted sequence is the key of some line; `i` is one such line. */
  lemma {:induction false} ExtractedFromLines(lines: seq<string>, k: string) returns (i: nat)
    requires k in Extracted(lines)
    ensures i < |lines| && Key(lines[i]) == Some(k)
    decreases |lines|
  {
    var p := lines[..|lines| - 1];
    if k in Extracted(p) {
      i := ExtractedFromLines(p, k);
      assert lines[i] == p[i];
    } else {
      i := |lines| - 1;
    }
  }

  /** Every key of the table was extracted from one of the lines (line `i`), so it has the shape of an address. */
  lemma AggregateKeysFromLines(lines: seq<string>, k: string) returns (i: nat)
    requires k in Keys(Aggregate(lines))
    ensures i < |lines| && Key(lines[i]) == Some(k)
    ensures AddressChars(k)
  {
    AggregateOrder(lines);
    i := ExtractedFromLines(lines, k);
    KeyShape(lines[i]);
  }

  /** Aggregation is a left fold: the lines after `a` continue from the table `a` left. */
  lemma {:induction false} AggregateAppend(a: seq<string>, b: seq<string>)
    ensures Aggregate(a + b) == FoldLines(Aggregate(a), b)
    decreases |b|
  {
    if |b| > 0 {
      var a' := a + [b[0]];
      AggregateSnoc(a, b[0]);
      ShiftFirst(a, b);
      AggregateAppend(a', b[1..]);
    } else {
      assert a + b == a;
    }
  }

  /**
   * `parseSuccessIPs` over the lines of the log, with the two `if` blocks of the
   * loop body as written.
   */
  method ParseSuccessIPs(lines: seq<string>) returns (ipTable: Table)
    ensures ipTable == Aggregate(lines)
    ensures Valid(ipTable)
    ensures Keys(ipTable) == Dedup(Extracted(lines))
    ensures forall k :: Count(ipTable, k) == LinesWithKey(lines, k)
    ensures Total(ipTable) == CountedLines(lines)
  {
    ipTable := [];
    for i := 0 to |lines|
      invariant ipTable == Aggregate(lines[..i])
    {
      var line := lines[i];
      ghost var before := ipTable;
      var matchIp4 := Ip4(line);
      var matchIp6 := Ip6(line);
      var httpStat := Codes(line);
      if matchIp4.Some? && Success in httpStat {
        ipTable := Bump(ipTable, matchIp4.value);
      }
      if matchIp6.Some? && Success in httpStat {
        ipTable := Bump(ipTable, matchIp6.value);
      }
      assert ipTable == Step(before, line);
      AggregateNext(lines, i);
      assert ipTable == Aggregate(lines[..i + 1]);
    }
    assert lines[..|lines|] == lines;
    AggregateOrder(lines);
    AggregateTotal(lines);
    forall k
      ensures Count(ipTable, k) == LinesWithKey(lines, k)
    {
      AggregateCount(lines, k);
    }
  }
}
