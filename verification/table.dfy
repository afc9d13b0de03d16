/**
 * The `OrderedDict` the analyzer counts into (logAnalyzer.py line 33): a
 * sequence of entries in insertion order whose keys are pairwise distinct.
 * A key that is absent has count 0, which is the `ip in ip_table.keys()`
 * test of lines 45 and 52.
 */
module OrderedTable {

  datatype Entry = Entry(ip: string, count: nat)

  type Table = seq<Entry>

  function Keys(t: Table): (ks: seq<string>)
    ensures |ks| == |t| && forall i :: 0 <= i < |t| ==> ks[i] == t[i].ip
  {
    seq(|t|, i requires 0 <= i < |t| => t[i].ip)
  }

  predicate Distinct(ks: seq<string>) {
    forall i, j :: 0 <= i < j < |ks| ==> ks[i] != ks[j]
  }

  /** The representation invariant of the table: distinct keys, every count at least 1. */
  predicate Valid(t: Table) {
    Distinct(Keys(t)) && forall i :: 0 <= i < |t| ==> t[i].count >= 1
  }

  /** `ip_table[k]` when `k` is present, 0 when it is not. */
  function Count(t: Table, k: string): (n: nat)
    ensures k !in Keys(t) ==> n == 0
    ensures forall i :: 0 <= i < |t| && t[i].ip == k && Distinct(Keys(t)) ==> n == t[i].count
  {
    if |t| == 0 then 0
    else if t[0].ip == k then t[0].count
    else Count(t[1..], k)
  }

  /** The sum of all counts. */
  function Total(t: Table): nat {
    if |t| == 0 then 0 else t[0].count + Total(t[1..])
  }

  /**
   * `r` is `t` after the update of lines 45-48 (and 52-55) for key `k`: add 1 to
   * the count of `k` if it is a key, otherwise append `k` with count 1. Nothing
   * else changes, and a new key goes last, so the order stays the order of first
   * insertion.
   */
  ghost predicate Bumped(t: Table, k: string, r: Table) {
    && Distinct(Keys(r))
    && (k !in Keys(t) ==> r == t + [Entry(k, 1)])
    && (k in Keys(t) ==> |r| == |t| && Keys(r) == Keys(t))
    && (k in Keys(t) ==> forall i :: 0 <= i < |t| ==>
          r[i] == if t[i].ip == k then Entry(k, t[i].count + 1) else t[i])
  }

  /** `ip_table[k] += 1` or `ip_table[k] = 1`, whichever lines 45-48 choose. */
  function Bump(t: Table, k: string): (r: Table)
    requires Distinct(Keys(t))
    ensures Bumped(t, k, r)
  {
    if |t| == 0 then
      assert Keys([Entry(k, 1)]) == [k];
      [Entry(k, 1)]
    else if t[0].ip == k then
      BumpHere(t, k);
      [Entry(k, t[0].count + 1)] + t[1..]
    else
      KeysSplit(t);
      var rest := Bump(t[1..], k);
      BumpLater(t, k, rest);
      [t[0]] + rest
  }

  lemma BumpHere(t: Table, k: string)
    requires |t| > 0 && t[0].ip == k && Distinct(Keys(t))
    ensures Bumped(t, k, [Entry(k, t[0].count + 1)] + t[1..])
  {
    KeysSplit(t);
    KeysCons(Entry(k, t[0].count + 1), t[1..]);
  }

  lemma BumpLater(t: Table, k: string, rest: Table)
    requires |t| > 0 && t[0].ip != k && Distinct(Keys(t))
    requires Bumped(t[1..], k, rest)
    ensures Bumped(t, k, [t[0]] + rest)
  {
    KeysSplit(t);
    KeysCons(t[0], rest);
    if k in Keys(t) {
      assert k in Keys(t[1..]);
      BumpLaterPresent(t, k, rest);
    } else {
      assert k !in Keys(t[1..]);
      assert Keys(rest) == Keys(t[1..]) + [k];
      DistinctCons(t[0].ip, Keys(rest));
      assert [t[0]] + (t[1..] + [Entry(k, 1)]) == t + [Entry(k, 1)];
    }
  }

  lemma BumpLaterPresent(t: Table, k: string, rest: Table)
    requires |t| > 0 && t[0].ip != k && Distinct(Keys(t))
    requires Keys(t) == [t[0].ip] + Keys(t[1..])
    requires Keys([t[0]] + rest) == [t[0].ip] + Keys(rest)
    requires k in Keys(t[1..]) && |rest| == |t| - 1 && Keys(rest) == Keys(t[1..])
    requires forall i :: 0 <= i < |t| - 1 ==>
               rest[i] == if t[1..][i].ip == k then Entry(k, t[1..][i].count + 1) else t[1..][i]
    ensures Bumped(t, k, [t[0]] + rest)
  {
    var r := [t[0]] + rest;
    forall i | 0 <= i < |t|
      ensures r[i] == if t[i].ip == k then Entry(k, t[i].count + 1) else t[i]
    {
      if i > 0 {
        assert r[i] == rest[i - 1] && t[1..][i - 1] == t[i];
      }
    }
  }

  lemma KeysCons(e: Entry, t: Table)
    ensures Keys([e] + t) == [e.ip] + Keys(t)
  {
    assert ([e] + t)[1..] == t;
  }

  /** The keys of a non-empty table: the first key, then the distinct keys of the rest, none equal to it. */
  lemma KeysSplit(t: Table)
    requires |t| > 0 && Distinct(Keys(t))
    ensures Keys(t) == [t[0].ip] + Keys(t[1..])
    ensures Distinct(Keys(t[1..])) && t[0].ip !in Keys(t[1..])
  {
    var ks := Keys(t);
    assert ks == [t[0].ip] + Keys(t[1..]);
    assert Keys(t[1..]) == ks[1..];
    DistinctTail(ks);
  }

  lemma DistinctTail(ks: seq<string>)
    requires |ks| > 0 && Distinct(ks)
    ensures Distinct(ks[1..]) && ks[0] !in ks[1..]
  {
    forall i, j | 0 <= i < j < |ks| - 1
      ensures ks[1..][i] != ks[1..][j]
    {
      assert ks[1..][i] == ks[i + 1] && ks[1..][j] == ks[j + 1];
    }
    forall i | 0 <= i < |ks| - 1
      ensures ks[1..][i] != ks[0]
    {
      assert ks[1..][i] == ks[i + 1];
    }
  }

  lemma DistinctCons(x: string, ks: seq<string>)
    requires x !in ks && Distinct(ks)
    ensures Distinct([x] + ks)
  {
    var xs := [x] + ks;
    forall i, j | 0 <= i < j < |xs|
      ensures xs[i] != xs[j]
    {
      assert xs[j] == ks[j - 1];
      if i > 0 {
        assert xs[i] == ks[i - 1];
      }
    }
  }

  /** Counting through `Bump`: the count of `k` goes up by one and no other count moves. */
  lemma BumpCount(t: Table, k: string, x: string)
    requires Distinct(Keys(t))
    ensures Count(Bump(t, k), x) == Count(t, x) + (if x == k then 1 else 0)
  {
    var r := Bump(t, k);
    if k in Keys(t) {
      if x in Keys(t) {
        var i :| 0 <= i < |t| && t[i].ip == x;
        assert r[i].ip == x;
      }
    } else {
      assert Keys(r) == Keys(t) + [k];
      if x in Keys(t) {
        var i :| 0 <= i < |t| && t[i].ip == x;
        assert r[i] == t[i];
      } else if x == k {
        assert r[|t|].ip == k;
      }
    }
  }

  lemma TotalAppend(t: Table, e: Entry)
    ensures Total(t + [e]) == Total(t) + e.count
  {
    if |t| > 0 {
      assert (t + [e])[1..] == t[1..] + [e];
      TotalAppend(t[1..], e);
    }
  }

  lemma {:induction false} TotalBumpHere(t: Table, k: string)
    requires |t| > 0 && t[0].ip == k
    ensures Total([Entry(k, t[0].count + 1)] + t[1..]) == Total(t) + 1
  {
    assert ([Entry(k, t[0].count + 1)] + t[1..])[1..] == t[1..];
  }

  /** `Bump` adds exactly one to the sum of all counts. */
  lemma {:induction false} BumpTotal(t: Table, k: string)
    requires Distinct(Keys(t))
    ensures Total(Bump(t, k)) == Total(t) + 1
    decreases |t|
  {
    if k !in Keys(t) {
      TotalAppend(t, Entry(k, 1));
    } else if t[0].ip == k {
      TotalBumpHere(t, k);
    } else {
      assert Distinct(Keys(t[1..])) by {
        assert forall i :: 0 <= i < |t| - 1 ==> Keys(t[1..])[i] == Keys(t)[i + 1];
      }
      BumpTotal(t[1..], k);
      var r := Bump(t, k);
      assert r[0] == t[0];
      assert r[1..] == Bump(t[1..], k);
    }
  }

  /** A valid table is empty exactly when its counts sum to zero. */
  lemma TotalZero(t: Table)
    requires Valid(t)
    ensures Total(t) == 0 <==> |t| == 0
  {
    if |t| > 0 {
      assert t[0].count >= 1;
    }
  }

  /** `Bump` keeps the representation invariant. */
  lemma BumpValid(t: Table, k: string)
    requires Valid(t)
    ensures Valid(Bump(t, k))
  {
  }

  // ---- First-appearance order ----

  /** The distinct elements of `ks`, each where it first appears. */
  function Dedup(ks: seq<string>): (d: seq<string>)
    ensures Distinct(d)
    ensures forall x :: x in d <==> x in ks
  {
    if |ks| == 0 then []
    else
      var d := Dedup(ks[..|ks| - 1]);
      var x := ks[|ks| - 1];
      assert ks == ks[..|ks| - 1] + [x];
      if x in d then d else d + [x]
  }

  /** The index of the first occurrence of `x` in `ks`. */
  function FirstIndex(ks: seq<string>, x: string): (i: nat)
    requires x in ks
    ensures i < |ks| && ks[i] == x && x !in ks[..i]
  {
    if ks[0] == x then 0 else 1 + FirstIndex(ks[1..], x)
  }

  lemma {:induction false} FirstIndexAppend(ks: seq<string>, y: string, x: string)
    requires x in ks
    ensures FirstIndex(ks + [y], x) == FirstIndex(ks, x)
  {
    var i := FirstIndex(ks, x);
    var j := FirstIndex(ks + [y], x);
    assert (ks + [y])[i] == x;
  }

  /** `Dedup` lists the elements in the order of their first appearance. */
  lemma {:induction false} DedupOrder(ks: seq<string>)
    ensures forall i, j :: 0 <= i < j < |Dedup(ks)| ==>
              FirstIndex(ks, Dedup(ks)[i]) < FirstIndex(ks, Dedup(ks)[j])
  {
    if |ks| > 0 {
      var p := ks[..|ks| - 1];
      var x := ks[|ks| - 1];
      assert ks == p + [x];
      DedupOrder(p);
      var d := Dedup(p);
      forall y | y in d
        ensures FirstIndex(ks, y) == FirstIndex(p, y) < |p|
      {
        FirstIndexAppend(p, x, y);
      }
      if x !in d {
        assert FirstIndex(ks, x) == |p|;
      }
    }
  }
}
