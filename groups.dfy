/** The aggregation primitives of `generate_plots`: `groupby(key)[...].sum()`
    (groups in ascending key order), `nlargest(n)` and the percentage each bar
    of a chart is labelled with. */
module Groups {
  import opened Wrappers
  import opened Keys

  /** One group of `groupby(...).sum()`: its key and the summed count. */
  datatype Group = Group(key: Key, total: real)

  /** One value fed to a group-by: the row's key and its count. */
  datatype Entry = Entry(key: Key, count: real)

  predicate Ascending(g: seq<Group>) {
    forall i, j :: 0 <= i < j < |g| ==> Less(g[i].key, g[j].key)
  }

  function KeySet(g: seq<Group>): set<Key> {
    if g == [] then {} else {g[0].key} + KeySet(g[1..])
  }

  lemma {:induction false} InKeySet(g: seq<Group>, k: Key)
    ensures k in KeySet(g) <==> exists i :: 0 <= i < |g| && g[i].key == k
  {
    if g != [] {
      InKeySet(g[1..], k);
      if exists i :: 0 <= i < |g| && g[i].key == k {
        var i :| 0 <= i < |g| && g[i].key == k;
        if i > 0 {
          assert g[1..][i - 1].key == k;
        }
      }
    }
  }

  function SumTotals(g: seq<Group>): real {
    if g == [] then 0.0 else g[0].total + SumTotals(g[1..])
  }

  /** The summed total held for key `k` (0 when there is no such group). */
  function Lookup(g: seq<Group>, k: Key): real {
    if g == [] then 0.0 else (if g[0].key == k then g[0].total else 0.0) + Lookup(g[1..], k)
  }

  /** Adds `v` to the group of `k`, creating it at its place in key order if
      it is new. */
  function Add(g: seq<Group>, k: Key, v: real): (r: seq<Group>)
    requires Ascending(g)
    ensures Ascending(r)
    ensures KeySet(r) == KeySet(g) + {k}
    ensures SumTotals(r) == SumTotals(g) + v
    ensures forall q :: Lookup(r, q) == Lookup(g, q) + (if q == k then v else 0.0)
  {
    if g == [] then [Group(k, v)]
    else if g[0].key == k then [Group(k, g[0].total + v)] + g[1..]
    else if Less(k, g[0].key) then
      assert forall j :: 0 < j < |g| ==> Less(k, g[j].key) by {
        forall j | 0 < j < |g| ensures Less(k, g[j].key) {
          LessTransitive(k, g[0].key, g[j].key);
        }
      }
      assert ([Group(k, v)] + g)[1..] == g;
      [Group(k, v)] + g
    else
      LessTotal(k, g[0].key);
      var rest := Add(g[1..], k, v);
      var r := [g[0]] + rest;
      assert r[1..] == rest;
      assert forall j :: 0 <= j < |rest| ==> Less(g[0].key, rest[j].key) by {
        forall j | 0 <= j < |rest| ensures Less(g[0].key, rest[j].key) {
          InKeySet(rest, rest[j].key);
          InKeySet(g[1..], rest[j].key);
          if rest[j].key != k {
            var i :| 0 <= i < |g[1..]| && g[1..][i].key == rest[j].key;
            assert Less(g[0].key, g[i + 1].key);
          }
        }
      }
      r
  }

  function SumCounts(es: seq<Entry>): real {
    if es == [] then 0.0 else SumCounts(es[..|es| - 1]) + es[|es| - 1].count
  }

  /** The sum of the counts whose key is `k`. */
  function SumWhere(es: seq<Entry>, k: Key): real {
    if es == [] then 0.0
    else SumWhere(es[..|es| - 1], k) + (if es[|es| - 1].key == k then es[|es| - 1].count else 0.0)
  }

  function EntryKeys(es: seq<Entry>): set<Key> {
    if es == [] then {} else EntryKeys(es[..|es| - 1]) + {es[|es| - 1].key}
  }

  lemma {:induction false} EntryKeysIndex(es: seq<Entry>, k: Key)
    ensures k in EntryKeys(es) <==> exists i :: 0 <= i < |es| && es[i].key == k
  {
    if es != [] {
      var init := es[..|es| - 1];
      EntryKeysIndex(init, k);
      if exists i :: 0 <= i < |es| && es[i].key == k {
        var i :| 0 <= i < |es| && es[i].key == k;
        if i < |es| - 1 {
          assert init[i].key == k;
        }
      }
    }
  }

  /** `groupby(key).sum()`: one group per key present, in ascending key order,
      each holding the sum of that key's counts; nothing is lost or made up
      on the way. */
  function GroupSum(es: seq<Entry>): (r: seq<Group>)
    ensures Ascending(r)
    ensures KeySet(r) == EntryKeys(es)
    ensures SumTotals(r) == SumCounts(es)
    ensures forall k :: Lookup(r, k) == SumWhere(es, k)
  {
    if es == [] then []
    else
      Add(GroupSum(es[..|es| - 1]), es[|es| - 1].key, es[|es| - 1].count)
  }

  lemma {:induction false} LookupAbsent(g: seq<Group>, k: Key)
    requires k !in KeySet(g)
    ensures Lookup(g, k) == 0.0
  {
    if g != [] {
      LookupAbsent(g[1..], k);
    }
  }

  /** In a list of groups with ascending keys the lookup of a group's key is
      that group's total. */
  lemma {:induction false} LookupAscending(g: seq<Group>, i: nat)
    requires Ascending(g) && i < |g|
    ensures Lookup(g, g[i].key) == g[i].total
  {
    if i == 0 {
      assert g[0].key !in KeySet(g[1..]) by {
        InKeySet(g[1..], g[0].key);
        if g[0].key in KeySet(g[1..]) {
          var j :| 0 <= j < |g| - 1 && g[1..][j].key == g[0].key;
          assert Less(g[0].key, g[j + 1].key);
          LessIrreflexive(g[0].key);
          assert false;
        }
      }
      LookupAbsent(g[1..], g[0].key);
    } else {
      assert Less(g[0].key, g[i].key);
      LessIrreflexive(g[0].key);
      LookupAscending(g[1..], i - 1);
    }
  }

  /** Every group of `groupby(key).sum()` holds exactly the sum of the counts
      carrying its key, and no key appears twice. */
  lemma GroupSumTotals(es: seq<Entry>)
    ensures forall i :: 0 <= i < |GroupSum(es)| ==> GroupSum(es)[i].total == SumWhere(es, GroupSum(es)[i].key)
    ensures forall i, j :: 0 <= i < j < |GroupSum(es)| ==> GroupSum(es)[i].key != GroupSum(es)[j].key
  {
    var g := GroupSum(es);
    forall i | 0 <= i < |g| ensures g[i].total == SumWhere(es, g[i].key) {
      LookupAscending(g, i);
    }
    forall i, j | 0 <= i < j < |g| ensures g[i].key != g[j].key {
      LessIrreflexive(g[i].key);
    }
  }

  /** Ascending keys are distinct, so there are as many groups as keys. */
  lemma {:induction false} KeySetSize(g: seq<Group>)
    requires Ascending(g)
    ensures |KeySet(g)| == |g|
  {
    if g != [] {
      KeySetSize(g[1..]);
      InKeySet(g[1..], g[0].key);
      if g[0].key in KeySet(g[1..]) {
        var j :| 0 <= j < |g| - 1 && g[1..][j].key == g[0].key;
        assert Less(g[0].key, g[j + 1].key);
        LessIrreflexive(g[0].key);
      }
    }
  }

  // ----- nlargest -----

  predicate Descending(s: seq<Group>) {
    forall i, j :: 0 <= i < j < |s| ==> s[i].total >= s[j].total
  }

  /** Putting a group no smaller than the head in front keeps the order. */
  lemma ConsDescending(h: Group, rest: seq<Group>)
    requires Descending(rest)
    requires rest == [] || h.total >= rest[0].total
    ensures Descending([h] + rest)
  {
    var r := [h] + rest;
    forall i, j | 0 <= i < j < |r| ensures r[i].total >= r[j].total {
      if i == 0 {
        assert r[j] == rest[j - 1];
        assert rest[0].total >= rest[j - 1].total || j == 1;
      } else {
        assert r[i] == rest[i - 1] && r[j] == rest[j - 1];
      }
    }
  }

  /** Places `x` ahead of the first group whose total it equals or exceeds. */
  function InsertDesc(x: Group, s: seq<Group>): (r: seq<Group>)
    requires Descending(s)
    ensures Descending(r)
    ensures multiset(r) == multiset(s) + multiset{x}
    ensures r != [] && (r[0] == x || (s != [] && r[0] == s[0]))
  {
    if s == [] || x.total >= s[0].total then
      ConsDescending(x, s);
      [x] + s
    else
      var rest := InsertDesc(x, s[1..]);
      assert s == [s[0]] + s[1..];
      assert rest[0].total <= s[0].total by {
        if rest[0] != x {
          assert rest[0] == s[1];
        }
      }
      ConsDescending(s[0], rest);
      [s[0]] + rest
  }

  /** A sort by descending total; `SortDescKeepsTieOrder` shows it is stable. */
  function SortDesc(g: seq<Group>): (r: seq<Group>)
    ensures Descending(r)
    ensures multiset(r) == multiset(g)
  {
    if g == [] then []
    else
      assert g == [g[0]] + g[1..];
      InsertDesc(g[0], SortDesc(g[1..]))
  }

  function Min(a: int, b: int): int {
    if a < b then a else b
  }

  /** `nlargest(n)`: at most `n` groups, by descending total, taken from `g`;
      every group left out has a total no larger than any group kept, and when
      `g` has no more than `n` groups none is left out. */
  function Largest(g: seq<Group>, n: nat): (r: seq<Group>)
    ensures |r| == Min(n, |g|)
    ensures Descending(r)
    ensures multiset(r) <= multiset(g)
    ensures |g| <= n ==> multiset(r) == multiset(g)
    ensures forall e, i :: e in g && e !in r && 0 <= i < |r| ==> e.total <= r[i].total
  {
    var s := SortDesc(g);
    SortedPrefix(s, g, Min(n, |g|));
    s[..Min(n, |g|)]
  }

  /** Groups with equal totals appear in ascending key order. */
  predicate TiesInKeyOrder(s: seq<Group>) {
    forall i, j :: 0 <= i < j < |s| && s[i].total == s[j].total ==> Less(s[i].key, s[j].key)
  }

  /** Inserting adds `x` and nothing else. */
  lemma InsertDescMembers(x: Group, s: seq<Group>)
    requires Descending(s)
    ensures forall e :: e in InsertDesc(x, s) <==> e == x || e in s
  {
    var r := InsertDesc(x, s);
    forall e ensures e in r <==> e == x || e in s {
      assert e in r <==> e in multiset(r);
      assert e in s <==> e in multiset(s);
    }
  }

  /** Inserting a group whose key precedes every key of `s` puts it ahead of
      the groups it ties with. */
  lemma {:induction false} InsertDescKeepsTieOrder(x: Group, s: seq<Group>)
    requires Descending(s) && TiesInKeyOrder(s)
    requires forall j :: 0 <= j < |s| ==> Less(x.key, s[j].key)
    ensures TiesInKeyOrder(InsertDesc(x, s))
  {
    if s != [] && x.total < s[0].total {
      var tail := s[1..];
      var rest := InsertDesc(x, tail);
      InsertDescKeepsTieOrder(x, tail);
      InsertDescMembers(x, tail);
      var r := [s[0]] + rest;
      assert InsertDesc(x, s) == r;
      forall i, j | 0 <= i < j < |r| && r[i].total == r[j].total
        ensures Less(r[i].key, r[j].key)
      {
        if i == 0 {
          var e := rest[j - 1];
          assert e in rest;
          if e != x {
            var k :| 0 <= k < |tail| && tail[k] == e;
            assert s[k + 1] == e;
          }
        } else {
          assert r[i] == rest[i - 1] && r[j] == rest[j - 1];
        }
      }
    }
  }

  /** `SortDesc` is stable on grouped data: groups with equal totals keep the
      ascending key order `groupby` gave them. */
  lemma {:induction false} SortDescKeepsTieOrder(g: seq<Group>)
    requires Ascending(g)
    ensures TiesInKeyOrder(SortDesc(g))
  {
    if g != [] {
      var rest := SortDesc(g[1..]);
      SortDescKeepsTieOrder(g[1..]);
      forall j | 0 <= j < |rest| ensures Less(g[0].key, rest[j].key) {
        assert rest[j] in multiset(g[1..]);
        var k :| 0 <= k < |g[1..]| && g[1..][k] == rest[j];
        assert g[k + 1] == rest[j];
      }
      InsertDescKeepsTieOrder(g[0], rest);
    }
  }

  /** Cutting a sequence whose ties are in key order: the kept part keeps
      that order, and what is cut off with a kept group's total comes after
      it in key order. */
  lemma PrefixKeepsFirst(s: seq<Group>, m: nat)
    requires TiesInKeyOrder(s) && m <= |s|
    ensures TiesInKeyOrder(s[..m])
    ensures forall e, i :: e in s && e !in s[..m] && 0 <= i < m && e.total == s[i].total ==> Less(s[i].key, e.key)
  {
    forall e, i | e in s && e !in s[..m] && 0 <= i < m && e.total == s[i].total
      ensures Less(s[i].key, e.key)
    {
      var j :| 0 <= j < |s| && s[j] == e;
    }
  }

  /** `nlargest(n, keep='first')` on grouped data: kept groups with equal
      totals are in key order, and a group cut off with the same total as a
      kept one comes after it in key order. */
  lemma LargestKeepsFirst(g: seq<Group>, n: nat)
    requires Ascending(g)
    ensures TiesInKeyOrder(Largest(g, n))
    ensures forall e, i :: (e in g && e !in Largest(g, n) && 0 <= i < |Largest(g, n)|
                            && e.total == Largest(g, n)[i].total) ==> Less(Largest(g, n)[i].key, e.key)
  {
    var s := SortDesc(g);
    SortDescKeepsTieOrder(g);
    assert |multiset(s)| == |multiset(g)|;
    PrefixKeepsFirst(s, Min(n, |g|));
    forall e | e in g ensures e in s {
      assert e in multiset(g);
    }
  }

  /** A prefix of a descending permutation of `g` is a sub-multiset of `g`,
      and what it leaves out is no larger than what it keeps. */
  lemma SortedPrefix(s: seq<Group>, g: seq<Group>, m: nat)
    requires Descending(s) && multiset(s) == multiset(g) && m <= |g|
    ensures |s| == |g|
    ensures multiset(s[..m]) <= multiset(g)
    ensures m == |g| ==> multiset(s[..m]) == multiset(g)
    ensures forall e, i :: e in g && e !in s[..m] && 0 <= i < m ==> e.total <= s[..m][i].total
  {
    assert |multiset(s)| == |multiset(g)|;
    var r := s[..m];
    assert s == r + s[m..];
    assert multiset(s) == multiset(r) + multiset(s[m..]);
    forall e, i | e in g && e !in r && 0 <= i < m
      ensures e.total <= r[i].total
    {
      assert e in multiset(g);
      assert e in multiset(s);
      var j :| 0 <= j < |s| && s[j] == e;
    }
  }

  // ----- chart percentages -----

  /** One bar of a chart: its key, its total and the percentage printed on it.
      `None` is the NaN or infinity that a division by a zero sum yields. */
  datatype Bar = Bar(key: Key, total: real, share: Option<real>)

  function Share(v: real, sum: real): Option<real> {
    if sum == 0.0 then None else Some(v / sum)
  }

  function ShareBars(g: seq<Group>, sum: real): (bars: seq<Bar>)
    ensures |bars| == |g|
    ensures forall i :: 0 <= i < |g| ==> bars[i] == Bar(g[i].key, g[i].total, Share(g[i].total, sum))
  {
    seq(|g|, i requires 0 <= i < |g| => Bar(g[i].key, g[i].total, Share(g[i].total, sum)))
  }

  /** The bars of a chart: every bar's percentage is its total over the sum
      of the totals drawn in that same chart. */
  function Chart(g: seq<Group>): seq<Bar> {
    ShareBars(g, SumTotals(g))
  }

  function SumShares(bars: seq<Bar>): real {
    if bars == [] then 0.0
    else (match bars[0].share case Some(p) => p case None => 0.0) + SumShares(bars[1..])
  }

  lemma {:induction false} SumShareBars(g: seq<Group>, sum: real)
    requires sum != 0.0
    ensures SumShares(ShareBars(g, sum)) == SumTotals(g) / sum
  {
    if g != [] {
      var bars := ShareBars(g, sum);
      assert bars[1..] == ShareBars(g[1..], sum);
      SumShareBars(g[1..], sum);
      assert g[0].total / sum + SumTotals(g[1..]) / sum == (g[0].total + SumTotals(g[1..])) / sum;
    }
  }

  /** The percentages of one chart add up to 100%, whenever its sum is not 0. */
  lemma ChartSharesSumToOne(g: seq<Group>)
    requires SumTotals(g) != 0.0
    ensures forall i :: 0 <= i < |Chart(g)| ==> Chart(g)[i].share.Some?
    ensures SumShares(Chart(g)) == 1.0
  {
    assert Chart(g) == ShareBars(g, SumTotals(g));
    SumShareBars(g, SumTotals(g));
    assert SumTotals(g) / SumTotals(g) == 1.0;
  }
}
