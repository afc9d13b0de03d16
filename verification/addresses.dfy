/**
 * The two address patterns of the analyzer (logAnalyzer.py lines 14 and 18):
 *
 *   ip4_ptrn = ^\d{1,3}\.\d{1,3}\.\d{1,3}\.\d{1,3}
 *   ip6_ptrn = ^\w{1,4}:\w{1,4}: ... :\w{1,4}     (eight groups)
 *
 * Both are anchored with `^` and applied with `search` without MULTILINE, so
 * they can only match at index 0 of a line. Both have the shape
 * `k{1,cap}(sep k{1,cap}){n-1}` where the separator is not in class `k`;
 * the matcher below follows Python's backtracking order for that shape.
 */
module Addresses {
  import opened Wrappers
  import opened Chars

  datatype CharClass = Digit | Word

  predicate InClass(k: CharClass, c: char) {
    match k
    case Digit => IsDigit(c)
    case Word => IsWordChar(c)
  }

  /** The number of characters `k{1,cap}` takes greedily from the front of `s` (0 when it fails). */
  function Run(s: string, k: CharClass, cap: nat): (n: nat)
    ensures n <= cap && n <= |s|
    ensures forall j :: 0 <= j < n ==> InClass(k, s[j])
    ensures n < cap && n < |s| ==> !InClass(k, s[n])
  {
    if cap == 0 || |s| == 0 || !InClass(k, s[0]) then 0 else 1 + Run(s[1..], k, cap - 1)
  }

  /** One group of the pattern: 1 to `cap` characters of class `k`. */
  predicate IsGroup(g: string, k: CharClass, cap: nat) {
    1 <= |g| <= cap && forall j :: 0 <= j < |g| ==> InClass(k, g[j])
  }

  predicate AllGroups(gs: seq<string>, k: CharClass, cap: nat) {
    forall j :: 0 <= j < |gs| ==> IsGroup(gs[j], k, cap)
  }

  /** The groups written one after the other with `sep` between neighbours. */
  function Join(gs: seq<string>, sep: char): string
  {
    if |gs| == 0 then []
    else if |gs| == 1 then gs[0]
    else gs[0] + [sep] + Join(gs[1..], sep)
  }

  /** `t` is `n` groups of class `k` joined by `sep`, split as `gs`. */
  ghost predicate SplitsAs(t: string, gs: seq<string>, k: CharClass, cap: nat, sep: char, n: nat) {
    |gs| == n && AllGroups(gs, k, cap) && t == Join(gs, sep)
  }

  /** `t` is a whole match of `k{1,cap}(sep k{1,cap}){n-1}`. */
  ghost predicate Shaped(t: string, k: CharClass, cap: nat, sep: char, n: nat) {
    exists gs :: SplitsAs(t, gs, k, cap, sep, n)
  }

  lemma JoinCons(g: string, rest: seq<string>, sep: char)
    requires |rest| >= 1
    ensures Join([g] + rest, sep) == g + [sep] + Join(rest, sep)
  {
    assert ([g] + rest)[1..] == rest;
  }

  /**
   * Match `k{1,cap}(sep k{1,cap}){n-1}` at the front of `s` and return its groups.
   * Every group but the last must be followed by `sep`, which is not in `k`, so
   * backtracking can never shorten such a group; the last group is greedy.
   */
  function Groups(s: string, k: CharClass, cap: nat, sep: char, n: nat): Option<seq<string>>
    requires n >= 1
    decreases n
  {
    var m := Run(s, k, cap);
    if m == 0 then None
    else if n == 1 then Some([s[..m]])
    else if m < |s| && s[m] == sep then
      match Groups(s[m + 1..], k, cap, sep, n - 1)
      case None => None
      case Some(rest) => Some([s[..m]] + rest)
    else None
  }

  /** `r`, when present, is a splitting of `n` groups whose join is a prefix of `s`. */
  ghost predicate SoundMatch(s: string, r: Option<seq<string>>, k: CharClass, cap: nat, sep: char, n: nat) {
    r.Some? ==> SplitsAs(Join(r.value, sep), r.value, k, cap, sep, n) && Join(r.value, sep) <= s
  }

  /** What `Groups` returns is a splitting of `n` groups, and the groups joined are a prefix of `s`. */
  lemma {:induction false} GroupsSound(s: string, k: CharClass, cap: nat, sep: char, n: nat)
    requires n >= 1
    ensures SoundMatch(s, Groups(s, k, cap, sep, n), k, cap, sep, n)
    decreases n
  {
    var m := Run(s, k, cap);
    if m >= 1 && n == 1 {
      SoundLast(s, k, cap, sep);
    } else if m >= 1 && m < |s| && s[m] == sep {
      GroupsSound(s[m + 1..], k, cap, sep, n - 1);
      SoundStep(s, k, cap, sep, n, m);
    }
  }

  lemma SoundLast(s: string, k: CharClass, cap: nat, sep: char)
    requires Run(s, k, cap) >= 1
    ensures SoundMatch(s, Groups(s, k, cap, sep, 1), k, cap, sep, 1)
  {
    var m := Run(s, k, cap);
    var gs := [s[..m]];
    assert Groups(s, k, cap, sep, 1) == Some(gs);
    assert IsGroup(gs[0], k, cap);
    assert Join(gs, sep) == s[..m];
  }

  lemma SoundStep(s: string, k: CharClass, cap: nat, sep: char, n: nat, m: nat)
    requires n > 1 && 1 <= m == Run(s, k, cap) && m < |s| && s[m] == sep
    requires SoundMatch(s[m + 1..], Groups(s[m + 1..], k, cap, sep, n - 1), k, cap, sep, n - 1)
    ensures SoundMatch(s, Groups(s, k, cap, sep, n), k, cap, sep, n)
  {
    match Groups(s[m + 1..], k, cap, sep, n - 1)
    case None =>
    case Some(rest) =>
      assert IsGroup(s[..m], k, cap);
      GroupsUnfold(s, k, cap, sep, n, m, rest);
      ConsSound(s, k, cap, sep, m, rest);
  }

  /** One more group and a separator in front of a sound splitting of the rest keep it sound. */
  lemma ConsSound(s: string, k: CharClass, cap: nat, sep: char, m: nat, rest: seq<string>)
    requires 1 <= m < |s| && s[m] == sep && IsGroup(s[..m], k, cap)
    requires |rest| >= 1 && AllGroups(rest, k, cap) && Join(rest, sep) <= s[m + 1..]
    ensures AllGroups([s[..m]] + rest, k, cap)
    ensures Join([s[..m]] + rest, sep) <= s
  {
    var gs := [s[..m]] + rest;
    JoinCons(s[..m], rest, sep);
    assert s == s[..m] + [sep] + s[m + 1..];
    forall j | 0 <= j < |gs|
      ensures IsGroup(gs[j], k, cap)
    {
      if j > 0 { assert gs[j] == rest[j - 1]; }
    }
  }

  /** Two splittings that agree on all groups but the last, whose last group is no longer, join no longer. */
  lemma {:induction false} JoinMonotone(gs: seq<string>, hs: seq<string>, sep: char)
    requires |gs| == |hs| >= 1
    requires gs[..|gs| - 1] == hs[..|hs| - 1]
    requires |gs[|gs| - 1]| <= |hs[|hs| - 1]|
    ensures |Join(gs, sep)| <= |Join(hs, sep)|
    decreases |gs|
  {
    if |gs| > 1 {
      assert gs[0] == gs[..|gs| - 1][0] == hs[..|hs| - 1][0] == hs[0];
      assert gs[1..][..|gs| - 2] == gs[..|gs| - 1][1..];
      assert hs[1..][..|hs| - 2] == hs[..|hs| - 1][1..];
      JoinMonotone(gs[1..], hs[1..], sep);
    }
  }

  /** A group at the front of `s` is no longer than the greedy run, and equals it when a non-class character follows. */
  lemma RunCoversGroup(s: string, k: CharClass, cap: nat, g: string)
    requires IsGroup(g, k, cap) && g <= s
    ensures |g| <= Run(s, k, cap)
    ensures |g| < |s| && !InClass(k, s[|g|]) ==> Run(s, k, cap) == |g|
  {
  }

  /** A joined prefix of `s` with several groups splits at its first separator. */
  lemma JoinPrefixSplit(s: string, gs: seq<string>, sep: char)
    requires |gs| > 1 && Join(gs, sep) <= s
    ensures gs[0] <= s && |gs[0]| < |s| && s[|gs[0]|] == sep
    ensures Join(gs[1..], sep) <= s[|gs[0]| + 1..]
  {
    var g := gs[0];
    var j := Join(gs, sep);
    var tail := Join(gs[1..], sep);
    assert j == g + [sep] + tail;
    assert j[|g|] == sep;
    forall i | 0 <= i < |tail|
      ensures tail[i] == s[|g| + 1..][i]
    {
      assert tail[i] == j[|g| + 1 + i];
    }
  }

  /** `r` holds as many groups as `gs`, agrees with it on all but the last, and its last group is no shorter. */
  ghost predicate Dominates(r: Option<seq<string>>, gs: seq<string>)
    requires |gs| >= 1
  {
    && r.Some? && |r.value| == |gs|
    && r.value[..|gs| - 1] == gs[..|gs| - 1]
    && |gs[|gs| - 1]| <= |r.value[|gs| - 1]|
  }

  /**
   * Python's backtracking order: whenever some prefix of `s` has the shape,
   * `Groups` succeeds, agrees on every group but the last, and its last group
   * is at least as long.
   */
  lemma {:induction false} GroupsGreedy(s: string, k: CharClass, cap: nat, sep: char, n: nat, gs: seq<string>)
    requires n >= 1 && !InClass(k, sep)
    requires |gs| == n && AllGroups(gs, k, cap) && Join(gs, sep) <= s
    ensures Dominates(Groups(s, k, cap, sep, n), gs)
    decreases n
  {
    if n == 1 {
      GreedyLast(s, k, cap, sep, gs);
    } else {
      var m := GreedyHead(s, k, cap, sep, gs);
      GroupsGreedy(s[m + 1..], k, cap, sep, n - 1, gs[1..]);
      GreedyStep(s, k, cap, sep, n, gs, m);
    }
  }

  /** With a single group, the greedy run is at least as long as any group at the front. */
  lemma GreedyLast(s: string, k: CharClass, cap: nat, sep: char, gs: seq<string>)
    requires !InClass(k, sep)
    requires |gs| == 1 && AllGroups(gs, k, cap) && Join(gs, sep) <= s
    ensures Dominates(Groups(s, k, cap, sep, 1), gs)
  {
    assert IsGroup(gs[0], k, cap);
    assert Join(gs, sep) == gs[0];
    RunCoversGroup(s, k, cap, gs[0]);
    assert Groups(s, k, cap, sep, 1) == Some([s[..Run(s, k, cap)]]);
  }

  /** With several groups, the greedy run takes exactly the first group, and the rest follows the separator. */
  lemma GreedyHead(s: string, k: CharClass, cap: nat, sep: char, gs: seq<string>) returns (m: nat)
    requires !InClass(k, sep)
    requires |gs| > 1 && AllGroups(gs, k, cap) && Join(gs, sep) <= s
    ensures 1 <= m == Run(s, k, cap) == |gs[0]| && gs[0] <= s && m < |s| && s[m] == sep
    ensures AllGroups(gs[1..], k, cap) && Join(gs[1..], sep) <= s[m + 1..]
  {
    assert IsGroup(gs[0], k, cap);
    JoinPrefixSplit(s, gs, sep);
    RunCoversGroup(s, k, cap, gs[0]);
    m := Run(s, k, cap);
    forall j | 0 <= j < |gs| - 1
      ensures IsGroup(gs[1..][j], k, cap)
    {
      assert gs[1..][j] == gs[j + 1];
    }
  }

  /** The inductive step of `GroupsGreedy`, once the rest of the line is known to match. */
  lemma GreedyStep(s: string, k: CharClass, cap: nat, sep: char, n: nat, gs: seq<string>, m: nat)
    requires n > 1 && |gs| == n
    requires 1 <= m == Run(s, k, cap) == |gs[0]| && gs[0] <= s && m < |s| && s[m] == sep
    requires Dominates(Groups(s[m + 1..], k, cap, sep, n - 1), gs[1..])
    ensures Dominates(Groups(s, k, cap, sep, n), gs)
  {
    var g := gs[0];
    var rest := Groups(s[m + 1..], k, cap, sep, n - 1).value;
    assert s[..m] == g;
    GroupsUnfold(s, k, cap, sep, n, m, rest);
    var r := [g] + rest;
    SliceCons(g, rest, gs);
    assert r[n - 1] == rest[n - 2];
  }

  lemma GroupsUnfold(s: string, k: CharClass, cap: nat, sep: char, n: nat, m: nat, rest: seq<string>)
    requires n > 1 && 1 <= m == Run(s, k, cap) && m < |s| && s[m] == sep
    requires Groups(s[m + 1..], k, cap, sep, n - 1) == Some(rest)
    ensures Groups(s, k, cap, sep, n) == Some([s[..m]] + rest)
  {
  }

  lemma SliceCons(g: string, rest: seq<string>, gs: seq<string>)
    requires |gs| >= 2 && |rest| == |gs| - 1 && gs[0] == g
    requires rest[..|rest| - 1] == gs[1..][..|rest| - 1]
    ensures ([g] + rest)[..|gs| - 1] == gs[..|gs| - 1]
  {
    assert ([g] + rest)[..|gs| - 1] == [g] + rest[..|rest| - 1];
    assert gs[..|gs| - 1] == [g] + gs[1..][..|rest| - 1];
  }

  /** Of two prefixes of the same string, the shorter is a prefix of the longer. */
  lemma PrefixOfPrefix(t: string, u: string, s: string)
    requires t <= s && u <= s && |t| <= |u|
    ensures t <= u
  {
    assert forall i :: 0 <= i < |t| ==> t[i] == s[i] == u[i];
  }

  /** The match `search` returns for `^k{1,cap}(sep k{1,cap}){n-1}`: the groups joined. */
  function Search(s: string, k: CharClass, cap: nat, sep: char, n: nat): (r: Option<string>)
    requires n >= 1 && !InClass(k, sep)
    ensures r.Some? ==> r.value <= s && Shaped(r.value, k, cap, sep, n)
  {
    match Groups(s, k, cap, sep, n)
    case None => None
    case Some(gs) =>
      GroupsSound(s, k, cap, sep, n);
      Some(Join(gs, sep))
  }

  /**
   * `Search` succeeds exactly when some prefix of `s` has the shape, and then it
   * returns the longest such prefix: every shaped prefix is a prefix of it.
   */
  lemma SearchLongest(s: string, k: CharClass, cap: nat, sep: char, n: nat, t: string)
    requires n >= 1 && !InClass(k, sep)
    requires Shaped(t, k, cap, sep, n) && t <= s
    ensures Search(s, k, cap, sep, n).Some?
    ensures t <= Search(s, k, cap, sep, n).value
  {
    var gs :| SplitsAs(t, gs, k, cap, sep, n);
    GroupsGreedy(s, k, cap, sep, n, gs);
    var hs := Groups(s, k, cap, sep, n).value;
    GroupsSound(s, k, cap, sep, n);
    JoinMonotone(gs, hs, sep);
    PrefixOfPrefix(t, Join(hs, sep), s);
  }

  // ---- The two patterns of the analyzer ----

  /** `^\d{1,3}\.\d{1,3}\.\d{1,3}\.\d{1,3}` */
  ghost predicate Ip4Shaped(t: string) {
    Shaped(t, Digit, 3, '.', 4)
  }

  /** `^\w{1,4}` followed by seven `:\w{1,4}` */
  ghost predicate Ip6Shaped(t: string) {
    Shaped(t, Word, 4, ':', 8)
  }

  /** `ip4_ptrn.search(line)`, as the matched text. */
  function Ip4(line: string): (r: Option<string>)
    ensures r.Some? ==> r.value <= line && Ip4Shaped(r.value)
  {
    Search(line, Digit, 3, '.', 4)
  }

  /** `ip6_ptrn.search(line)`, as the matched text. */
  function Ip6(line: string): (r: Option<string>)
    ensures r.Some? ==> r.value <= line && Ip6Shaped(r.value)
  {
    Search(line, Word, 4, ':', 8)
  }

  /**
   * The IPv4 pattern matches whenever the line starts with an IPv4-shaped text, and
   * takes the longest one; with the contract of `Ip4` (a match is such a
   * prefix) this is an if-and-only-if.
   */
  lemma Ip4Longest(line: string, t: string)
    requires Ip4Shaped(t) && t <= line
    ensures Ip4(line).Some? && t <= Ip4(line).value
  {
    SearchLongest(line, Digit, 3, '.', 4, t);
  }

  /**
   * The IPv6 pattern matches whenever the line starts with an IPv6-shaped text, and
   * takes the longest one; with the contract of `Ip6` (a match is such a
   * prefix) this is an if-and-only-if.
   */
  lemma Ip6Longest(line: string, t: string)
    requires Ip6Shaped(t) && t <= line
    ensures Ip6(line).Some? && t <= Ip6(line).value
  {
    SearchLongest(line, Word, 4, ':', 8, t);
  }

  /**
   * No line matches both patterns: an IPv4 match makes the first `\w` run of
   * the line a digit run ending in `.`, where the IPv6 pattern needs `:`.
   */
  lemma Ip4ExcludesIp6(line: string)
    ensures Ip4(line).Some? ==> Ip6(line).None?
  {
    if Ip4(line).Some? {
      var d := Run(line, Digit, 3);
      var w := Run(line, Word, 4);
      assert d >= 1 && d < |line| && line[d] == '.';
      assert w == d;
    }
  }

  /** Characters an address key can contain: word characters and the two separators. */
  predicate AddressChars(t: string) {
    forall j :: 0 <= j < |t| ==> IsWordChar(t[j]) || t[j] == '.' || t[j] == ':'
  }

  lemma {:induction false} JoinAddressChars(gs: seq<string>, k: CharClass, cap: nat, sep: char)
    requires AllGroups(gs, k, cap)
    requires sep == '.' || sep == ':'
    ensures AddressChars(Join(gs, sep))
    decreases |gs|
  {
    if |gs| > 1 {
      assert AllGroups(gs[1..], k, cap);
      JoinAddressChars(gs[1..], k, cap, sep);
      assert IsGroup(gs[0], k, cap);
    } else if |gs| == 1 {
      assert IsGroup(gs[0], k, cap);
    }
  }

  /** Address characters include no newline, so an address fits on one line. */
  lemma AddressCharsSingleLine(t: string)
    requires AddressChars(t)
    ensures Lacks(t, '\n')
  {
  }

  /** Any text either pattern matches is made of word characters, `.` and `:` only: no whitespace. */
  lemma AddressHasNoSpace(t: string)
    requires Ip4Shaped(t) || Ip6Shaped(t)
    ensures AddressChars(t)
    ensures forall j :: 0 <= j < |t| ==> !IsSpace(t[j])
  {
    if Ip4Shaped(t) {
      var gs :| SplitsAs(t, gs, Digit, 3, '.', 4);
      JoinAddressChars(gs, Digit, 3, '.');
    } else {
      var gs :| SplitsAs(t, gs, Word, 4, ':', 8);
      JoinAddressChars(gs, Word, 4, ':');
    }
  }
}
