/** The ranking half of `_get_matching_product`, on primary keys alone: the
    raw hits are sorted in descending order (`list.sort(reverse=True)`),
    counted run by run into (key, count) pairs, and the pairs are sorted by
    descending count with Python's stable `sorted(..., reverse=True)`. */
module Ranking {

  /** A (primary key, number of hits) pair. */
  datatype Tally = Tally(id: int, count: nat)

  predicate SortedDesc(s: seq<int>)
  {
    forall i, j :: 0 <= i < j < |s| ==> s[i] >= s[j]
  }

  /** A suffix of a sorted list is sorted. */
  lemma SortedSuffix(s: seq<int>, x: nat)
    requires SortedDesc(s) && x <= |s|
    ensures SortedDesc(s[x..])
  {
    forall i, j | 0 <= i < j < |s[x..]|
      ensures s[x..][i] >= s[x..][j]
    {
      assert s[x..][i] == s[x + i] && s[x..][j] == s[x + j];
    }
  }

  /** Putting a key no smaller than any of a sorted list in front keeps it sorted. */
  lemma ConsSorted(x: int, s: seq<int>)
    requires SortedDesc(s)
    requires forall k :: 0 <= k < |s| ==> s[k] <= x
    ensures SortedDesc([x] + s)
  {
    forall i, j | 0 <= i < j < |[x] + s|
      ensures ([x] + s)[i] >= ([x] + s)[j]
    {
      assert ([x] + s)[j] == s[j - 1];
      if i > 0 {
        assert ([x] + s)[i] == s[i - 1];
      }
    }
  }

  function InsertDesc(x: int, s: seq<int>): (r: seq<int>)
    requires SortedDesc(s)
    ensures SortedDesc(r) && multiset(r) == multiset(s) + multiset{x}
  {
    if |s| == 0 || s[0] <= x then
      ConsSorted(x, s);
      [x] + s
    else
      SortedSuffix(s, 1);
      var rest := InsertDesc(x, s[1..]);
      assert s == [s[0]] + s[1..];
      assert forall k :: 0 <= k < |rest| ==> rest[k] <= s[0] by {
        forall k | 0 <= k < |rest|
          ensures rest[k] <= s[0]
        {
          assert rest[k] in multiset(rest);
          if rest[k] != x {
            var m :| 0 <= m < |s[1..]| && s[1..][m] == rest[k];
            assert s[m + 1] == rest[k];
          }
        }
      }
      ConsSorted(s[0], rest);
      [s[0]] + rest
  }

  /** `results.sort(reverse=True)` on a list of keys: the same keys, largest first. */
  function SortDesc(s: seq<int>): (r: seq<int>)
    ensures SortedDesc(r) && multiset(r) == multiset(s)
  {
    if |s| == 0 then []
    else
      assert s == [s[0]] + s[1..];
      InsertDesc(s[0], SortDesc(s[1..]))
  }

  /** Two sorted lists of the same keys start with the same, largest, key. */
  lemma SortedHeads(a: seq<int>, b: seq<int>)
    requires SortedDesc(a) && SortedDesc(b) && multiset(a) == multiset(b) && |a| > 0 && |b| > 0
    ensures a[0] == b[0]
  {
    assert a[0] in multiset(b) && b[0] in multiset(a);
    var i :| 0 <= i < |a| && a[i] == b[0];
    var j :| 0 <= j < |b| && b[j] == a[0];
    assert a[0] >= a[i] && b[0] >= b[j];
  }

  /** Removing the first key removes one copy of it from the multiset. */
  lemma TailMultiset(a: seq<int>)
    requires |a| > 0
    ensures multiset(a[1..]) == multiset(a) - multiset{a[0]}
  {
    assert a == [a[0]] + a[1..];
  }

  /** There is only one way to sort a multiset of keys in descending order. */
  lemma {:induction false} SortedUnique(a: seq<int>, b: seq<int>)
    requires SortedDesc(a) && SortedDesc(b) && multiset(a) == multiset(b)
    ensures a == b
  {
    assert |a| == |multiset(a)| == |multiset(b)| == |b|;
    if |a| > 0 {
      SortedHeads(a, b);
      TailMultiset(a);
      TailMultiset(b);
      SortedSuffix(a, 1);
      SortedSuffix(b, 1);
      SortedUnique(a[1..], b[1..]);
      assert a == [a[0]] + a[1..] && b == [b[0]] + b[1..];
    }
  }

  /** Length of the run of `v` at the front of `s`. */
  function LeadLen(s: seq<int>, v: int): (n: nat)
    ensures n <= |s|
  {
    if |s| == 0 || s[0] != v then 0 else 1 + LeadLen(s[1..], v)
  }

  /** In a sorted list the run at the front is exactly `count(s[0])` long,
      and every key after it is smaller. */
  lemma {:induction false} LeadingRun(s: seq<int>)
    requires SortedDesc(s) && |s| > 0
    ensures LeadLen(s, s[0]) == multiset(s)[s[0]] >= 1
    ensures forall i :: 0 <= i < LeadLen(s, s[0]) ==> s[i] == s[0]
    ensures forall i :: LeadLen(s, s[0]) <= i < |s| ==> s[i] < s[0]
  {
    assert s == [s[0]] + s[1..];
    if |s| > 1 {
      if s[1] == s[0] {
        LeadingRun(s[1..]);
      } else {
        assert forall k :: 0 <= k < |s[1..]| ==> s[1..][k] != s[0];
        assert s[0] !in s[1..];
      }
    }
  }

  /** The pairs the counting loop produces: one (key, run length) pair per
      run of equal keys, in the order of the runs. */
  function RunLengths(s: seq<int>): seq<Tally>
    decreases |s|
  {
    if |s| == 0 then []
    else
      var c := LeadLen(s, s[0]);
      [Tally(s[0], c)] + RunLengths(s[c..])
  }

  /** The first pair counted from a sorted list covers the whole leading
      run, and the run after it starts with a smaller key. */
  lemma RunStep(s: seq<int>) returns (n: nat)
    requires SortedDesc(s) && |s| > 0
    ensures n == multiset(s)[s[0]] && 1 <= n <= |s|
    ensures RunLengths(s) == [Tally(s[0], n)] + RunLengths(s[n..])
    ensures n < |s| ==> s[n - 1] > s[n]
  {
    LeadingRun(s);
    n := LeadLen(s, s[0]);
  }

  /** The keys of a sequence of tallies, in order. */
  function TallyIds(ts: seq<Tally>): (ids: seq<int>)
    ensures |ids| == |ts|
    ensures forall i :: 0 <= i < |ts| ==> ids[i] == ts[i].id
  {
    seq(|ts|, i requires 0 <= i < |ts| => ts[i].id)
  }

  /** Keys strictly decrease along the sequence, so they are pairwise distinct. */
  predicate IdsDescending(ts: seq<Tally>)
  {
    forall i, j :: 0 <= i < j < |ts| ==> ts[i].id > ts[j].id
  }

  /** Counting a sorted list: the keys that come out are exactly those of
      the list. */
  lemma {:induction false} RunLengthsKeys(s: seq<int>)
    requires SortedDesc(s)
    ensures forall x :: x in s <==> x in TallyIds(RunLengths(s))
    decreases |s|
  {
    if |s| > 0 {
      LeadingRun(s);
      var c := LeadLen(s, s[0]);
      var rest := s[c..];
      RunLengthsKeys(rest);
      var ts := RunLengths(s);
      assert ts == [Tally(s[0], c)] + RunLengths(rest);
      assert TallyIds(ts) == [s[0]] + TallyIds(RunLengths(rest));
      assert s == s[..c] + rest;
      assert forall x :: x in s[..c] ==> x == s[0];
    }
  }

  /** Counting a sorted list: the keys come out strictly descending. */
  lemma {:induction false} RunLengthsDescending(s: seq<int>)
    requires SortedDesc(s)
    ensures IdsDescending(RunLengths(s))
    decreases |s|
  {
    if |s| > 0 {
      LeadingRun(s);
      var c := LeadLen(s, s[0]);
      var rest := s[c..];
      SortedSuffix(s, c);
      RunLengthsDescending(rest);
      RunLengthsKeys(rest);
      var tail := RunLengths(rest);
      assert RunLengths(s) == [Tally(s[0], c)] + tail;
      forall k | 0 <= k < |tail|
        ensures tail[k].id < s[0]
      {
        assert tail[k].id in TallyIds(tail);
        var m :| 0 <= m < |rest| && rest[m] == tail[k].id;
        assert s[c + m] == rest[m];
      }
    }
  }

  /** Counting a sorted list: each key's count is its number of occurrences
      in the list. */
  lemma {:induction false} RunLengthsCounts(s: seq<int>)
    requires SortedDesc(s)
    ensures forall i :: 0 <= i < |RunLengths(s)| ==>
              RunLengths(s)[i].count == multiset(s)[RunLengths(s)[i].id] >= 1
    decreases |s|
  {
    if |s| > 0 {
      LeadingRun(s);
      var c := LeadLen(s, s[0]);
      var rest := s[c..];
      SortedSuffix(s, c);
      RunLengthsCounts(rest);
      RunLengthsKeys(rest);
      var tail := RunLengths(rest);
      assert RunLengths(s) == [Tally(s[0], c)] + tail;
      assert s == s[..c] + rest;
      assert multiset(s) == multiset(s[..c]) + multiset(rest);
      forall k | 0 <= k < |tail|
        ensures multiset(s)[tail[k].id] == multiset(rest)[tail[k].id]
      {
        assert tail[k].id in TallyIds(tail);
        var m :| 0 <= m < |rest| && rest[m] == tail[k].id;
        assert s[c + m] == rest[m];
        assert tail[k].id !in s[..c];
      }
    }
  }

  /** The position of a tally in the final ranking: more hits first, and
      among equal counts the larger key first. */
  predicate Before(a: Tally, b: Tally)
  {
    a.count > b.count || (a.count == b.count && a.id > b.id)
  }

  predicate RankOrdered(ts: seq<Tally>)
  {
    forall i, j :: 0 <= i < j < |ts| ==> Before(ts[i], ts[j])
  }

  predicate CountsDescending(ts: seq<Tally>)
  {
    forall i, j :: 0 <= i < j < |ts| ==> ts[i].count >= ts[j].count
  }

  lemma ConsCounts(t: Tally, ts: seq<Tally>)
    requires CountsDescending(ts)
    requires forall k :: 0 <= k < |ts| ==> ts[k].count <= t.count
    ensures CountsDescending([t] + ts)
  {
    forall i, j | 0 <= i < j < |[t] + ts|
      ensures ([t] + ts)[i].count >= ([t] + ts)[j].count
    {
      assert ([t] + ts)[j] == ts[j - 1];
      if i > 0 {
        assert ([t] + ts)[i] == ts[i - 1];
      }
    }
  }

  lemma CountsSuffix(ts: seq<Tally>)
    requires CountsDescending(ts) && |ts| > 0
    ensures CountsDescending(ts[1..])
  {
    forall i, j | 0 <= i < j < |ts[1..]|
      ensures ts[1..][i].count >= ts[1..][j].count
    {
      assert ts[1..][i] == ts[i + 1] && ts[1..][j] == ts[j + 1];
    }
  }

  /** Inserts `t` ahead of every tally with the same or a smaller count, as
      a stable descending sort does with the earliest of equal elements. */
  function InsertByCount(t: Tally, ts: seq<Tally>): (r: seq<Tally>)
    requires CountsDescending(ts)
    ensures CountsDescending(r) && multiset(r) == multiset(ts) + multiset{t}
  {
    if |ts| == 0 || ts[0].count <= t.count then
      ConsCounts(t, ts);
      [t] + ts
    else
      CountsSuffix(ts);
      var rest := InsertByCount(t, ts[1..]);
      assert ts == [ts[0]] + ts[1..];
      assert forall k :: 0 <= k < |rest| ==> rest[k].count <= ts[0].count by {
        forall k | 0 <= k < |rest|
          ensures rest[k].count <= ts[0].count
        {
          assert rest[k] in multiset(rest);
          if rest[k] != t {
            var m :| 0 <= m < |ts[1..]| && ts[1..][m] == rest[k];
            assert ts[m + 1] == rest[k];
          }
        }
      }
      ConsCounts(ts[0], rest);
      [ts[0]] + rest
  }

  /** `sorted(pairs, key=lambda p: p[1], reverse=True)`: a stable sort by
      descending count. */
  function SortByCount(ts: seq<Tally>): (r: seq<Tally>)
    ensures CountsDescending(r) && multiset(r) == multiset(ts)
  {
    if |ts| == 0 then []
    else
      assert ts == [ts[0]] + ts[1..];
      InsertByCount(ts[0], SortByCount(ts[1..]))
  }

  lemma ConsRanked(t: Tally, ts: seq<Tally>)
    requires RankOrdered(ts)
    requires forall k :: 0 <= k < |ts| ==> Before(t, ts[k])
    ensures RankOrdered([t] + ts)
  {
    forall i, j | 0 <= i < j < |[t] + ts|
      ensures Before(([t] + ts)[i], ([t] + ts)[j])
    {
      assert ([t] + ts)[j] == ts[j - 1];
      if i > 0 {
        assert ([t] + ts)[i] == ts[i - 1];
      }
    }
  }

  lemma RankedSuffix(ts: seq<Tally>)
    requires RankOrdered(ts) && |ts| > 0
    ensures RankOrdered(ts[1..])
  {
    forall i, j | 0 <= i < j < |ts[1..]|
      ensures Before(ts[1..][i], ts[1..][j])
    {
      assert ts[1..][i] == ts[i + 1] && ts[1..][j] == ts[j + 1];
    }
  }

  lemma {:induction false} InsertRankOrdered(t: Tally, ts: seq<Tally>)
    requires CountsDescending(ts) && RankOrdered(ts)
    requires forall k :: 0 <= k < |ts| ==> ts[k].id < t.id
    ensures RankOrdered(InsertByCount(t, ts))
  {
    if |ts| == 0 || ts[0].count <= t.count {
      forall k | 0 <= k < |ts|
        ensures Before(t, ts[k])
      {
        assert ts[0].count >= ts[k].count;
      }
      ConsRanked(t, ts);
    } else {
      CountsSuffix(ts);
      RankedSuffix(ts);
      forall k | 0 <= k < |ts[1..]|
        ensures ts[1..][k].id < t.id
      {
        assert ts[1..][k] == ts[k + 1];
      }
      InsertRankOrdered(t, ts[1..]);
      var rest := InsertByCount(t, ts[1..]);
      forall k | 0 <= k < |rest|
        ensures Before(ts[0], rest[k])
      {
        assert rest[k] in multiset(rest);
        if rest[k] != t {
          var m :| 0 <= m < |ts[1..]| && ts[1..][m] == rest[k];
          assert ts[m + 1] == rest[k];
        }
      }
      ConsRanked(ts[0], rest);
    }
  }

  /** Stability at work: when the keys arrive strictly descending, tallies
      with equal counts leave the sort with the larger key first. */
  lemma {:induction false} SortByCountRankOrdered(ts: seq<Tally>)
    requires IdsDescending(ts)
    ensures RankOrdered(SortByCount(ts))
  {
    if |ts| > 0 {
      SortByCountRankOrdered(ts[1..]);
      var sorted := SortByCount(ts[1..]);
      forall k | 0 <= k < |sorted|
        ensures sorted[k].id < ts[0].id
      {
        assert sorted[k] in multiset(ts[1..]);
      }
      InsertRankOrdered(ts[0], sorted);
    }
  }

  /** The whole ranking of `_get_matching_product`, on keys. */
  function RankHits(hits: seq<int>): seq<Tally>
  {
    SortByCount(RunLengths(SortDesc(hits)))
  }

  /** What a ranking is, independently of how it is computed: the tallies of
      the hit keys, each with its number of hits, most hits first and equal
      counts by descending key. */
  ghost predicate IsRankingOf(ts: seq<Tally>, hits: seq<int>)
  {
    && RankOrdered(ts)
    && (forall i :: 0 <= i < |ts| ==> ts[i].count == multiset(hits)[ts[i].id])
    && (forall x :: x in hits <==> x in TallyIds(ts))
  }

  /** The computed ranking is ordered by count, then by key. */
  lemma RankHitsOrdered(hits: seq<int>)
    ensures RankOrdered(RankHits(hits))
  {
    var sorted := SortDesc(hits);
    RunLengthsDescending(sorted);
    SortByCountRankOrdered(RunLengths(sorted));
  }

  /** Each tally of the computed ranking counts the hits of its key. */
  lemma RankHitsCounts(hits: seq<int>)
    ensures forall i :: 0 <= i < |RankHits(hits)| ==>
              RankHits(hits)[i].count == multiset(hits)[RankHits(hits)[i].id]
  {
    var sorted := SortDesc(hits);
    var counted := RunLengths(sorted);
    var r := RankHits(hits);
    RunLengthsCounts(sorted);
    forall i | 0 <= i < |r|
      ensures r[i].count == multiset(hits)[r[i].id]
    {
      assert r[i] in multiset(counted);
      var k :| 0 <= k < |counted| && counted[k] == r[i];
    }
  }

  /** Rearranging tallies does not change which keys they carry. */
  lemma SameKeys(a: seq<Tally>, b: seq<Tally>, x: int)
    requires multiset(a) == multiset(b)
    ensures x in TallyIds(a) ==> x in TallyIds(b)
  {
    if x in TallyIds(a) {
      var i :| 0 <= i < |a| && a[i].id == x;
      assert a[i] in multiset(b);
      var j :| 0 <= j < |b| && b[j] == a[i];
      assert TallyIds(b)[j] == x;
    }
  }

  /** The computed ranking holds a tally for exactly the keys that were hit. */
  lemma RankHitsKeys(hits: seq<int>)
    ensures forall x :: x in hits <==> x in TallyIds(RankHits(hits))
  {
    var sorted := SortDesc(hits);
    var counted := RunLengths(sorted);
    var r := RankHits(hits);
    RunLengthsKeys(sorted);
    forall x
      ensures x in hits <==> x in TallyIds(r)
    {
      assert x in hits <==> x in multiset(sorted);
      SameKeys(counted, r, x);
      SameKeys(r, counted, x);
    }
  }

  lemma RankHitsIsRanking(hits: seq<int>)
    ensures IsRankingOf(RankHits(hits), hits)
  {
    RankHitsOrdered(hits);
    RankHitsCounts(hits);
    RankHitsKeys(hits);
  }

  /** Two sequences ranked in the same strict order and holding the same
      tallies are the same sequence. */
  lemma {:induction false} RankOrderedUnique(a: seq<Tally>, b: seq<Tally>)
    requires RankOrdered(a) && RankOrdered(b)
    requires forall t :: t in a <==> t in b
    ensures a == b
  {
    if |a| == 0 {
      forall t
        ensures multiset(b)[t] == 0
      {
        assert t !in a;
      }
      assert multiset(b) == multiset{};
      assert |b| == |multiset(b)| == 0;
    } else {
      RankedHeads(a, b);
      RankedTails(a, b);
      RankedSuffix(a);
      RankedSuffix(b);
      RankOrderedUnique(a[1..], b[1..]);
      calc {
        a;
        [a[0]] + a[1..];
        [b[0]] + b[1..];
        b;
      }
    }
  }

  /** Two such sequences start with the same tally, the one before all others. */
  lemma RankedHeads(a: seq<Tally>, b: seq<Tally>)
    requires RankOrdered(a) && RankOrdered(b)
    requires forall t :: t in a <==> t in b
    requires |a| > 0
    ensures |b| > 0 && a[0] == b[0]
  {
    assert a[0] in b && |b| > 0 && b[0] in a;
    var i :| 0 <= i < |a| && a[i] == b[0];
    var j :| 0 <= j < |b| && b[j] == a[0];
    assert !(Before(a[0], b[0]) && Before(b[0], a[0]));
    assert i == 0 || j == 0;
  }

  /** Behind a common first tally, both sequences hold the same tallies. */
  lemma RankedTails(a: seq<Tally>, b: seq<Tally>)
    requires RankOrdered(a) && RankOrdered(b)
    requires forall t :: t in a <==> t in b
    requires |a| > 0 && |b| > 0 && a[0] == b[0]
    ensures forall t :: t in a[1..] <==> t in b[1..]
  {
    forall t
      ensures t in a[1..] <==> t in b[1..]
    {
      if t in a[1..] {
        var k :| 0 <= k < |a[1..]| && a[1..][k] == t;
        assert Before(a[0], a[k + 1]);
        assert t in b;
        assert t != b[0];
      }
      if t in b[1..] {
        var k :| 0 <= k < |b[1..]| && b[1..][k] == t;
        assert Before(b[0], b[k + 1]);
        assert t in a;
        assert t != a[0];
      }
    }
  }

  /** The computed ranking is the only sequence that is a ranking of the hits. */
  lemma RankingUnique(hits: seq<int>, ts: seq<Tally>)
    requires IsRankingOf(ts, hits)
    ensures ts == RankHits(hits)
  {
    var r := RankHits(hits);
    RankHitsIsRanking(hits);
    forall t
      ensures t in ts <==> t in r
    {
      if t in ts {
        var i :| 0 <= i < |ts| && ts[i] == t;
        assert t.id in TallyIds(r);
        var j :| 0 <= j < |r| && r[j].id == t.id;
        assert r[j] == t;
      }
      if t in r {
        var i :| 0 <= i < |r| && r[i] == t;
        assert t.id in TallyIds(ts);
        var j :| 0 <= j < |ts| && ts[j].id == t.id;
        assert ts[j] == t;
      }
    }
    RankOrderedUnique(ts, r);
  }

  /** The ranking depends only on how often each key was hit, not on the
      order in which the hits were collected. */
  lemma RankHitsOrderFree(h1: seq<int>, h2: seq<int>)
    requires multiset(h1) == multiset(h2)
    ensures RankHits(h1) == RankHits(h2)
  {
    RankHitsIsRanking(h1);
    forall x
      ensures x in h1 <==> x in h2
    {
      assert x in h1 <==> x in multiset(h1);
      assert x in h2 <==> x in multiset(h2);
    }
    RankingUnique(h2, RankHits(h1));
  }
}
