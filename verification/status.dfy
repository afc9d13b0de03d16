/**
 * The status pattern of the analyzer (logAnalyzer.py line 22)
 *
 *   http_resp = "GET .* HTTP/1.1"\s(200|301|302|401|404|500|502)
 *
 * applied with `findall`: a leftmost, non-overlapping scan of the line that
 * collects the captured code of each match. `.*` is greedy and stops at a
 * newline, the `.` of `1.1` is any character but a newline, and `\s` is one
 * whitespace character. Nothing follows the code, so `2000` captures `200`.
 */
module Status {
  import opened Wrappers
  import opened Chars

  /** The literal that opens a request: a double quote, `GET` and a space. */
  const Get: string := "\"GET "

  /** The alternation of the capture group, in the order the pattern lists it. */
  const StatusCodes: seq<string> := ["200", "301", "302", "401", "404", "500", "502"]

  /** The one code that makes a line count. */
  const Success: string := "200"

  /** Characters from the start of the ` HTTP/1.1"` literal to the end of the code. */
  const TailLength: nat := 14

  /**
   * The part of the pattern after `.*`, on exactly the 14 characters it spans:
   * ` HTTP/1`, any non-newline character, `1"`, one whitespace character, a code.
   */
  function TailOf(t: string): (r: Option<string>)
    requires |t| == TailLength
    ensures r.Some? ==> r.value == t[11..] && r.value in StatusCodes && t[9] == '"'
  {
    if t[..7] == " HTTP/1" && t[7] != '\n' && t[8] == '1' && t[9] == '"' && IsSpace(t[10]) && t[11..] in StatusCodes
    then Some(t[11..])
    else None
  }

  /** The tail tried at position `p` of the line. */
  function TailAt(s: string, p: nat): (r: Option<string>)
    ensures r.Some? ==> p + TailLength <= |s| && r.value == s[p + 11..p + TailLength] && r.value in StatusCodes
    ensures r.Some? ==> s[p + 9] == '"'
  {
    if p + TailLength <= |s| then TailOf(s[p..p + TailLength]) else None
  }

  /** The most `.*` can consume starting at `i`: everything up to the next newline. */
  function LineRun(s: string, i: nat): (n: nat)
    requires i <= |s|
    ensures i + n <= |s|
    ensures forall j :: i <= j < i + n ==> s[j] != '\n'
    ensures i + n < |s| ==> s[i + n] == '\n'
    decreases |s| - i
  {
    if i == |s| || s[i] == '\n' then 0 else 1 + LineRun(s, i + 1)
  }

  /** One match: the captured code, where the tail starts, and where the match ends. */
  datatype Hit = Hit(code: string, tail: nat, end: nat)

  /**
   * A match of the whole pattern starting at `i` whose `.*` ends at `q`
   * (the declarative reading of the regex, with no search order).
   */
  ghost predicate RequestAt(s: string, i: nat, q: nat) {
    && i + |Get| <= q
    && q <= |s|
    && s[i..i + |Get|] == Get
    && (forall j :: i + |Get| <= j < q ==> s[j] != '\n')
    && TailAt(s, q).Some?
  }

  /**
   * Backtracking of the greedy `.*`: try the tail at `p`, then at `p - 1`, and so
   * on down to `lo`. The first position that works is the largest one.
   */
  function Backtrack(s: string, lo: nat, p: nat): (r: Option<Hit>)
    requires lo <= p
    ensures r.Some? <==> exists q: nat :: lo <= q <= p && TailAt(s, q).Some?
    ensures r.Some? ==> lo <= r.value.tail <= p && TailAt(s, r.value.tail) == Some(r.value.code)
                        && r.value.end == r.value.tail + TailLength
    ensures r.Some? ==> forall q: nat :: r.value.tail < q <= p ==> TailAt(s, q).None?
    decreases p - lo
  {
    match TailAt(s, p)
    case Some(code) => Some(Hit(code, p, p + TailLength))
    case None =>
      if p == lo then None
      else
        var r := Backtrack(s, lo, p - 1);
        BacktrackStep(s, lo, p, r);
        r
  }

  /** A failed tail at `p` leaves the result of backtracking from `p - 1` valid for `p`. */
  lemma BacktrackStep(s: string, lo: nat, p: nat, r: Option<Hit>)
    requires lo < p && TailAt(s, p).None?
    requires r.Some? <==> exists q: nat :: lo <= q <= p - 1 && TailAt(s, q).Some?
    requires r.Some? ==> lo <= r.value.tail <= p - 1
    requires r.Some? ==> forall q: nat :: r.value.tail < q <= p - 1 ==> TailAt(s, q).None?
    ensures r.Some? <==> exists q: nat :: lo <= q <= p && TailAt(s, q).Some?
    ensures r.Some? ==> forall q: nat :: r.value.tail < q <= p ==> TailAt(s, q).None?
  {
  }

  /**
   * The regex engine's attempt at position `i`: the literal `"GET `, then `.*`
   * as far as the line goes, backtracking until the tail matches.
   * It succeeds exactly when some match starts at `i`, and it picks the longest.
   */
  function MatchAt(s: string, i: nat): (r: Option<Hit>)
    requires i <= |s|
    ensures r.Some? <==> exists q: nat :: RequestAt(s, i, q)
    ensures r.Some? ==> RequestAt(s, i, r.value.tail) && TailAt(s, r.value.tail) == Some(r.value.code)
                        && r.value.end == r.value.tail + TailLength
    ensures r.Some? ==> forall q: nat :: RequestAt(s, i, q) ==> q <= r.value.tail
  {
    if i + |Get| <= |s| && s[i..i + |Get|] == Get then
      var lo := i + |Get|;
      var hi := lo + LineRun(s, lo);
      assert forall q: nat :: RequestAt(s, i, q) <==> lo <= q <= hi && TailAt(s, q).Some? by {
        forall q: nat
          ensures RequestAt(s, i, q) <==> lo <= q <= hi && TailAt(s, q).Some?
        {
          RequestWithinLine(s, i, q);
        }
      }
      Backtrack(s, lo, hi)
    else
      None
  }

  /** Once `"GET ` is at `i`, a match ends its `.*` exactly at a tail position inside the line. */
  lemma RequestWithinLine(s: string, i: nat, q: nat)
    requires i + |Get| <= |s| && s[i..i + |Get|] == Get
    ensures RequestAt(s, i, q) <==> i + |Get| <= q <= i + |Get| + LineRun(s, i + |Get|) && TailAt(s, q).Some?
  {
  }

  /** `findall` from position `i`: the codes of the leftmost non-overlapping matches. */
  function FindAll(s: string, i: nat): (r: seq<string>)
    requires i <= |s|
    ensures forall j :: 0 <= j < |r| ==> r[j] in StatusCodes
    decreases |s| - i
  {
    if i == |s| then []
    else
      match MatchAt(s, i)
      case Some(h) => [h.code] + FindAll(s, h.end)
      case None => FindAll(s, i + 1)
  }

  /** `http_resp.findall(line)`: some code is reported exactly when the line holds a match. */
  function Codes(line: string): (r: seq<string>)
    ensures r != [] <==> exists i, q :: RequestAt(line, i, q)
  {
    FindAllNonEmpty(line);
    FindAll(line, 0)
  }

  /** The status condition of a line, `'200' in http_stat`: it holds a `"GET ... HTTP/1.1" 200` request. */
  predicate Qualifies(line: string)
    ensures Qualifies(line) ==> exists i, q :: RequestAt(line, i, q) && TailAt(line, q) == Some(Success)
  {
    if Success in Codes(line) then
      FindAllSound(line, 0, Success);
      true
    else
      false
  }

  /** Every code `findall` reports comes from a real match of the pattern at or after `i`. */
  lemma {:induction false} FindAllSound(s: string, i: nat, c: string)
    requires i <= |s| && c in FindAll(s, i)
    ensures exists i', q :: i <= i' && RequestAt(s, i', q) && TailAt(s, q) == Some(c)
    decreases |s| - i
  {
    if i < |s| {
      match MatchAt(s, i)
      case Some(h) =>
        if c != h.code {
          FindAllSound(s, h.end, c);
        } else {
          assert RequestAt(s, i, h.tail) && TailAt(s, h.tail) == Some(c);
        }
      case None =>
        FindAllSound(s, i + 1, c);
    }
  }

  /** A match anywhere at or after `i` makes the scan from `i` report something. */
  lemma {:induction false} FindAllComplete(s: string, i: nat, i': nat, q: nat)
    requires i <= i' <= |s| && RequestAt(s, i', q)
    ensures FindAll(s, i) != []
    decreases i' - i
  {
    if MatchAt(s, i).None? {
      assert i != i';
      FindAllComplete(s, i + 1, i', q);
    }
  }

  /**
   * The scan from `i` reports first the match at the leftmost position `i'` where
   * one starts, and resumes where that match ends.
   */
  lemma {:induction false} FindAllLeftmost(s: string, i: nat, i': nat)
    requires i <= i' <= |s| && MatchAt(s, i').Some?
    requires forall j: nat, q: nat :: i <= j < i' ==> !RequestAt(s, j, q)
    ensures FindAll(s, i) == [MatchAt(s, i').value.code] + FindAll(s, MatchAt(s, i').value.end)
    decreases i' - i
  {
    if i < i' {
      assert MatchAt(s, i).None?;
      FindAllLeftmost(s, i + 1, i');
    }
  }

  /** The scan of a whole line reports something exactly when the line holds a match. */
  lemma FindAllNonEmpty(line: string)
    ensures FindAll(line, 0) != [] <==> exists i, q :: RequestAt(line, i, q)
  {
    if FindAll(line, 0) != [] {
      FindAllSound(line, 0, FindAll(line, 0)[0]);
    }
    if exists i, q :: RequestAt(line, i, q) {
      var i, q :| RequestAt(line, i, q);
      FindAllComplete(line, 0, i, q);
    }
  }

  /** `"GET ` begins at position `j`. */
  predicate GetAt(s: string, j: nat) {
    j + |Get| <= |s| && s[j..j + |Get|] == Get
  }

  /** Positions where no `"GET ` begins cannot start a match, so the scan passes over them. */
  lemma {:induction false} SkipNoGet(s: string, i: nat, k: nat)
    requires i <= k <= |s|
    requires forall j: nat :: i <= j < k ==> !GetAt(s, j)
    ensures FindAll(s, i) == FindAll(s, k)
    decreases k - i
  {
    if i < k {
      assert !GetAt(s, i);
      assert MatchAt(s, i).None?;
      SkipNoGet(s, i + 1, k);
    }
  }

  /** Positions holding no double quote cannot start a match, so the scan passes over them. */
  lemma SkipNoQuote(s: string, i: nat, k: nat)
    requires i <= k <= |s|
    requires forall j :: i <= j < k ==> s[j] != '"'
    ensures FindAll(s, i) == FindAll(s, k)
  {
    forall j: nat | i <= j < k
      ensures !GetAt(s, j)
    {
      if j + |Get| <= |s| {
        assert s[j..j + |Get|][0] == s[j];
      }
    }
    SkipNoGet(s, i, k);
  }

  /** A line in which `"GET ` never occurs has no status codes at all. */
  lemma NoGetNoCodes(line: string)
    requires forall j: nat :: !GetAt(line, j)
    ensures Codes(line) == []
  {
    SkipNoGet(line, 0, |line|);
  }

  /** A line without a double quote has no status codes at all. */
  lemma NoQuoteNoCodes(line: string)
    requires Lacks(line, '"')
    ensures Codes(line) == []
  {
    SkipNoQuote(line, 0, |line|);
  }

  /** The standard request text: `"GET <mid> HTTP/1.1"<ws><code>`. */
  function Request(mid: string, ws: char, code: string): string {
    Get + mid + " HTTP/1.1\"" + [ws] + code
  }

  /**
   * A line holding exactly one request, with no double quote before it or after
   * it and no newline inside it, reports exactly that request's code.
   */
  lemma SingleRequest(pre: string, mid: string, ws: char, code: string, post: string)
    requires Lacks(pre, '"') && Lacks(mid, '\n') && Lacks(post, '"')
    requires IsSpace(ws) && code in StatusCodes
    ensures Codes(pre + Request(mid, ws, code) + post) == [code]
  {
    QuotelessFree(pre);
    QuotelessFree(post);
    SoleRequest(pre, mid, ws, code, post);
  }

  /** Text without a double quote holds neither `"GET ` nor a tail, whose ninth character is one. */
  lemma QuotelessFree(t: string)
    requires Lacks(t, '"')
    ensures forall j: nat :: !GetAt(t, j) && TailAt(t, j).None?
  {
    forall j: nat
      ensures !GetAt(t, j) && TailAt(t, j).None?
    {
      if j + |Get| <= |t| {
        assert t[j..j + |Get|][0] == t[j];
      }
      if j + 9 < |t| {
        assert t[j + 9] != '"';
      }
    }
  }

  /**
   * A match at `i` with no `"GET ` before it, no tail after its own, and no
   * `"GET ` after its code is the one match `findall` reports.
   */
  lemma OnlyMatchGeneral(s: string, i: nat, p: nat)
    requires RequestAt(s, i, p)
    requires forall j: nat :: j < i ==> !GetAt(s, j)
    requires forall q: nat :: p < q ==> TailAt(s, q).None?
    requires forall j: nat :: p + TailLength <= j ==> !GetAt(s, j)
    ensures Codes(s) == [TailAt(s, p).value]
  {
    SkipNoGet(s, 0, i);
    var h := MatchAt(s, i).value;
    assert h.tail == p;
    assert FindAll(s, i) == [h.code] + FindAll(s, h.end);
    SkipNoGet(s, h.end, |s|);
  }

  /**
   * A line holding one request, with no `"GET ` before it, no newline inside it,
   * and neither `"GET ` nor a tail in the text after it, reports exactly that
   * request's code. Other double quotes may surround the request, as in the
   * Combined Log Format's referrer and user-agent fields.
   */
  lemma SoleRequest(pre: string, mid: string, ws: char, code: string, post: string)
    requires forall j: nat :: !GetAt(pre, j)
    requires Lacks(mid, '\n')
    requires forall j: nat :: !GetAt(post, j)
    requires forall q: nat :: TailAt(post, q).None?
    requires IsSpace(ws) && code in StatusCodes
    ensures Codes(pre + Request(mid, ws, code) + post) == [code]
  {
    var r := Request(mid, ws, code);
    var s := pre + r + post;
    var i := |pre|;
    var p := i + |Get| + |mid|;
    RequestLayout(pre, mid, ws, code, post);
    StandardTail(ws, code);
    CodeIsDigits(code);
    assert RequestAt(s, i, p);
    assert s == pre + (r + post) && (r + post)[..|Get|] == Get;
    GetFreeBefore(pre, r + post);
    assert s == (pre + r) + post && (pre + r)[p..] == " HTTP/1.1\"" + [ws] + code;
    AfterTail(pre + r, post, p, ws, code);
    OnlyMatchGeneral(s, i, p);
  }

  /** After a standard tail that ends `a`, text without `"GET ` or a tail adds neither. */
  lemma AfterTail(a: string, post: string, p: nat, ws: char, code: string)
    requires p + TailLength == |a| && a[p..] == " HTTP/1.1\"" + [ws] + code
    requires code in StatusCodes
    requires forall j: nat :: !GetAt(post, j)
    requires forall q: nat :: TailAt(post, q).None?
    ensures forall q: nat :: p < q ==> TailAt(a + post, q).None?
    ensures forall j: nat :: p + TailLength <= j ==> !GetAt(a + post, j)
  {
    var s := a + post;
    assert s[p..p + TailLength] == a[p..];
    NoTailInside(s, p, ws, code);
    forall q: nat | p + TailLength <= q
      ensures TailAt(s, q).None? && !GetAt(s, q)
    {
      WindowAfter(a, post, q - |a|);
    }
  }

  /** Text free of `"GET ` stays free of it up to the start of a following `"GET `. */
  lemma GetFreeBefore(pre: string, rest: string)
    requires forall j: nat :: !GetAt(pre, j)
    requires |Get| <= |rest| && rest[..|Get|] == Get
    ensures forall j: nat :: j < |pre| ==> !GetAt(pre + rest, j)
  {
    var s := pre + rest;
    forall j: nat | j < |pre|
      ensures !GetAt(s, j)
    {
      if j + |Get| <= |pre| {
        assert s[j..j + |Get|] == pre[j..j + |Get|];
        assert !GetAt(pre, j);
      } else if j + |Get| <= |s| {
        var k := |pre| - j;
        assert s[j..j + |Get|][k] == rest[..|Get|][0];
      }
    }
  }

  /** Text without a double quote, then text without `"GET `, has no `"GET `. */
  lemma GetFreeAfterQuoteless(a: string, b: string)
    requires Lacks(a, '"')
    requires forall j: nat :: !GetAt(b, j)
    ensures forall j: nat :: !GetAt(a + b, j)
  {
    forall j: nat
      ensures !GetAt(a + b, j)
    {
      if j < |a| {
        if j + |Get| <= |a + b| {
          assert (a + b)[j..j + |Get|][0] == a[j];
        }
      } else {
        WindowAfter(a, b, j - |a|);
      }
    }
  }

  /** Past the end of `a`, the windows of `a + b` are those of `b`. */
  lemma WindowAfter(a: string, b: string, j: nat)
    ensures GetAt(a + b, |a| + j) == GetAt(b, j)
    ensures TailAt(a + b, |a| + j) == TailAt(b, j)
  {
    if j + |Get| <= |b| {
      assert (a + b)[|a| + j..|a| + j + |Get|] == b[j..j + |Get|];
    }
    if j + TailLength <= |b| {
      assert (a + b)[|a| + j..|a| + j + TailLength] == b[j..j + TailLength];
    }
  }

  /** No second tail starts inside a standard tail: its only other space is followed by a digit. */
  lemma NoTailInside(s: string, p: nat, ws: char, code: string)
    requires p + TailLength <= |s|
    requires s[p..p + TailLength] == " HTTP/1.1\"" + [ws] + code
    requires code in StatusCodes
    ensures forall q: nat :: p < q < p + TailLength ==> TailAt(s, q).None?
  {
    var w := s[p..p + TailLength];
    CodeIsDigits(code);
    forall q: nat | p < q < p + TailLength
      ensures TailAt(s, q).None?
    {
      if q + TailLength <= |s| {
        var t := s[q..q + TailLength];
        assert t[0] == w[q - p];
        if q - p == 10 {
          assert t[1] == w[11] == code[0];
        }
        assert t[..7][0] == t[0] && t[..7][1] == t[1];
      }
    }
  }

  /** Every code of the alternation is three decimal digits. */
  lemma CodeIsDigits(c: string)
    requires c in StatusCodes
    ensures |c| == 3 && AllDigits(c)
    ensures Lacks(c, '\n') && Lacks(c, '"')
  {
  }

  lemma LacksConcat(x: string, y: string, c: char)
    requires Lacks(x, c) && Lacks(y, c)
    ensures Lacks(x + y, c)
  {
    forall j | 0 <= j < |x + y|
      ensures (x + y)[j] != c
    {
      if j >= |x| {
        assert (x + y)[j] == y[j - |x|];
      }
    }
  }

  /**
   * Every window of the shape ` HTTP/1`, one non-newline character, `1"`, one
   * whitespace character and a code of the alternation is a tail with that code.
   */
  lemma TailShape(x: char, ws: char, code: string)
    requires x != '\n' && IsSpace(ws) && code in StatusCodes
    ensures TailOf(" HTTP/1" + [x] + "1\"" + [ws] + code) == Some(code)
  {
    var t := " HTTP/1" + [x] + "1\"" + [ws] + code;
    assert t[..7] == " HTTP/1" && t[11..] == code;
  }

  /** Every tail has that shape: the window is ` HTTP/1`, a non-newline, `1"`, a whitespace, the code. */
  lemma TailSound(t: string)
    requires |t| == TailLength && TailOf(t).Some?
    ensures t == " HTTP/1" + [t[7]] + "1\"" + [t[10]] + TailOf(t).value
    ensures t[7] != '\n' && IsSpace(t[10])
  {
    assert t == t[..7] + [t[7]] + [t[8], t[9]] + [t[10]] + t[11..];
  }

  /** The tail as a well-formed request writes it. */
  lemma StandardTail(ws: char, code: string)
    requires IsSpace(ws) && code in StatusCodes
    ensures TailOf(" HTTP/1.1\"" + [ws] + code) == Some(code)
  {
    TailShape('.', ws, code);
    assert " HTTP/1.1\"" + [ws] + code == " HTTP/1" + ['.'] + "1\"" + [ws] + code;
  }

  /** Where the pieces of a line holding one request sit. */
  lemma RequestLayout(pre: string, mid: string, ws: char, code: string, post: string)
    requires |code| == 3
    ensures var s := pre + Request(mid, ws, code) + post;
            var i := |pre|;
            var p := i + |Get| + |mid|;
            && |s| == p + TailLength + |post|
            && s[i..i + |Get|] == Get
            && s[p..p + TailLength] == " HTTP/1.1\"" + [ws] + code
            && (forall j :: i + |Get| <= j < p ==> s[j] == mid[j - i - |Get|])
            && s[p + 10] == ws && s[p + 11..p + TailLength] == code
            && (forall j :: p + TailLength <= j < |s| ==> s[j] == post[j - p - TailLength])
            && (forall j :: 0 <= j < i ==> s[j] == pre[j])
  {
    var tail := " HTTP/1.1\"" + [ws] + code;
    assert Request(mid, ws, code) == Get + mid + tail;
    assert pre + Request(mid, ws, code) + post == pre + Get + mid + tail + post;
  }

  /** What lies between `"GET ` and the second tail when two requests share a line has no newline. */
  lemma RequestsBetween(a: string, c1: string, b: string)
    requires Lacks(a, '\n') && Lacks(b, '\n') && c1 in StatusCodes
    ensures Lacks(a + " HTTP/1.1\"" + [' '] + c1 + " " + Get + b, '\n')
  {
    CodeIsDigits(c1);
    LacksConcat(a, " HTTP/1.1\"" + [' '], '\n');
    LacksConcat(a + " HTTP/1.1\"" + [' '], c1, '\n');
    LacksConcat(a + " HTTP/1.1\"" + [' '] + c1, " " + Get, '\n');
    LacksConcat(a + " HTTP/1.1\"" + [' '] + c1 + " " + Get, b, '\n');
  }

  /**
   * Greedy `.*` at work: with two requests on one line, the first match runs to the
   * second request's tail, so only the second code is reported, although the line
   * also holds a complete match for the first request. When the first code is
   * `200` and the second is not, the line does not qualify.
   */
  lemma GreedyHidesEarlierRequest(a: string, c1: string, b: string, c2: string)
    requires Lacks(a, '\n') && Lacks(b, '\n')
    requires c1 in StatusCodes && c2 in StatusCodes
    ensures var line := Request(a, ' ', c1) + " " + Request(b, ' ', c2);
            && Codes(line) == [c2]
            && RequestAt(line, 0, |Get| + |a|) && TailAt(line, |Get| + |a|) == Some(c1)
  {
    var second := " " + Request(b, ' ', c2);
    var mid := a + " HTTP/1.1\"" + [' '] + c1 + " " + Get + b;
    TwoRequests(a, c1, b, c2);
    RequestsBetween(a, c1, b);
    SoleRequest([], mid, ' ', c2, []);
    RequestLayout([], a, ' ', c1, second);
    StandardTail(' ', c1);
  }

  /** The same two-request line, read as one request and as a request followed by more text. */
  lemma TwoRequests(a: string, c1: string, b: string, c2: string)
    ensures var line := Request(a, ' ', c1) + " " + Request(b, ' ', c2);
            && line == [] + Request(a + " HTTP/1.1\"" + [' '] + c1 + " " + Get + b, ' ', c2) + []
            && line == [] + Request(a, ' ', c1) + (" " + Request(b, ' ', c2))
  {
  }
}
