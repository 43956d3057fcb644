/** `_get_matching_product`, the helper nested in the `search` view: for each
    word, collect the keys of the rows its lookup yields; sort and count
    them; order the counts; and fetch the products in that order. */
module Matcher {
  import opened Text
  import opened Catalog
  import opened Ranking

  /** The accumulator `results` once the word loop is done: for each word in
      turn, the keys of the rows its lookup yields. */
  function Hits(catalog: seq<Product>, words: seq<string>, criterion: Criterion): seq<int>
    decreases |words|
  {
    if |words| == 0 then []
    else Hits(catalog, words[..|words| - 1], criterion)
         + IdsOf(Lookup(catalog, words[|words| - 1], criterion))
  }

  /** How many hits product `p` collects over all the words: for a name
      lookup, the number of words its name contains; for a category lookup,
      the number of (word, linked category) pairs that match. */
  function HitCount(p: Product, words: seq<string>, criterion: Criterion): nat
    decreases |words|
  {
    if |words| == 0 then 0
    else HitCount(p, words[..|words| - 1], criterion) + RowsFor(p, words[|words| - 1], criterion)
  }

  /** The inner loop of the word loop: append the key of each row. */
  method AppendIds(results: seq<int>, matching: seq<Product>) returns (extended: seq<int>)
    ensures extended == results + IdsOf(matching)
  {
    extended := results;
    ghost var ids := IdsOf(matching);
    for j := 0 to |matching|
      invariant extended == results + ids[..j]
    {
      assert ids[..j + 1] == ids[..j] + [ids[j]];
      extended := extended + [matching[j].id];
    }
    assert ids[..|matching|] == ids;
  }

  /** The first loops of `_get_matching_product`: append the key of every
      row of every word's lookup. */
  method CollectHits(catalog: seq<Product>, words: seq<string>, criterion: Criterion)
    returns (results: seq<int>)
    ensures results == Hits(catalog, words, criterion)
  {
    results := [];
    for i := 0 to |words|
      invariant results == Hits(catalog, words[..i], criterion)
    {
      results := AppendIds(results, Lookup(catalog, words[i], criterion));
      assert words[..i + 1][..i] == words[..i];
    }
    assert words[..|words|] == words;
  }

  /** The counting loop: `x` walks the sorted keys from run to run, and each
      run becomes one (key, `results.count(key)`) pair. */
  method CountRuns(results: seq<int>) returns (counted: seq<Tally>)
    requires SortedDesc(results)
    ensures counted == RunLengths(results)
  {
    counted := [];
    var x := 0;
    assert results[x..] == results;
    while x < |results|
      invariant 0 <= x <= |results|
      invariant 0 < x < |results| ==> results[x - 1] > results[x]
      invariant CountedUpTo(results, x, counted)
      decreases |results| - x
    {
      var key, n := NextRun(results, x, counted);
      counted := counted + [Tally(key, n)];
      x := x + n;
    }
    assert RunLengths(results[x..]) == [];
  }

  /** The loop invariant of `CountRuns`: the pairs counted so far, followed
      by the pairs of the keys from `x` on, are all the pairs. */
  ghost predicate CountedUpTo(results: seq<int>, x: nat, counted: seq<Tally>)
    requires x <= |results|
  {
    counted + RunLengths(results[x..]) == RunLengths(results)
  }

  /** The body of the counting loop: the key at `x` and `results.count(key)`.
      It keeps the loop invariant of `CountRuns`: the pair for the run at `x`
      joins the counted pairs, and `x + n` is the start of the next run. */
  method NextRun(results: seq<int>, x: nat, ghost counted: seq<Tally>) returns (key: int, n: nat)
    requires SortedDesc(results) && x < |results|
    requires 0 < x ==> results[x - 1] > results[x]
    requires CountedUpTo(results, x, counted)
    ensures key == results[x] && n == multiset(results)[key]
    ensures 0 < n && x + n <= |results|
    ensures 0 < x + n < |results| ==> results[x + n - 1] > results[x + n]
    ensures CountedUpTo(results, x + n, counted + [Tally(key, n)])
  {
    key := results[x];
    n := multiset(results)[key];
    ghost var next := CountStep(results, x, counted);
    assert next == x + n && Tally(key, n) == Tally(results[x], next - x);
  }

  /** The invariant-keeping step, stated at the start `next` of the next run. */
  lemma CountStep(results: seq<int>, x: nat, counted: seq<Tally>) returns (next: nat)
    requires SortedDesc(results) && x < |results|
    requires 0 < x ==> results[x - 1] > results[x]
    requires CountedUpTo(results, x, counted)
    ensures next == x + multiset(results)[results[x]] && x < next <= |results|
    ensures 0 < next < |results| ==> results[next - 1] > results[next]
    ensures CountedUpTo(results, next, counted + [Tally(results[x], next - x)])
  {
    SortedSuffix(results, x);
    CountFromRunStart(results, x);
    next := RunAt(results, x);
    AppendAssoc(counted, [Tally(results[x], next - x)], RunLengths(results[next..]));
  }

  lemma AppendAssoc(a: seq<Tally>, b: seq<Tally>, c: seq<Tally>)
    ensures (a + b) + c == a + (b + c)
  {
  }

  /** One step of the counting loop: at the start of a run, `count(key)` is
      the length of that run, so `x` lands on the start of the next run. */
  lemma RunAt(results: seq<int>, x: nat) returns (next: nat)
    requires x < |results| && SortedDesc(results[x..])
    requires multiset(results)[results[x]] == multiset(results[x..])[results[x]]
    ensures next == x + multiset(results)[results[x]]
    ensures x < next <= |results|
    ensures RunLengths(results[x..]) == [Tally(results[x], next - x)] + RunLengths(results[next..])
    ensures 0 < next < |results| ==> results[next - 1] > results[next]
  {
    var suffix := results[x..];
    var n := RunStep(suffix);
    next := x + n;
    assert suffix[n..] == results[next..];
    if next < |results| {
      assert results[next - 1] == suffix[n - 1];
      assert results[next] == suffix[n];
    }
  }

  /** Keys before the start of a run are larger than the run's key, so
      counting the key in the whole list counts it in the rest. */
  lemma CountFromRunStart(results: seq<int>, x: nat)
    requires SortedDesc(results) && x < |results|
    requires 0 < x ==> results[x - 1] > results[x]
    ensures multiset(results)[results[x]] == multiset(results[x..])[results[x]]
  {
    var key := results[x];
    assert results == results[..x] + results[x..];
    forall k | 0 <= k < x
      ensures results[k] != key
    {
      assert results[k] >= results[x - 1];
    }
    assert key !in results[..x];
    assert multiset(results) == multiset(results[..x]) + multiset(results[x..]);
  }

  /** `Product.objects.get(pk=...)` for each ranked key, in order. */
  function FetchAll(catalog: seq<Product>, ranked: seq<Tally>): (products: seq<Product>)
    requires forall i :: 0 <= i < |ranked| ==> ranked[i].id in Ids(catalog)
    ensures |products| == |ranked|
    ensures forall i :: 0 <= i < |ranked| ==> products[i] in catalog && products[i].id == ranked[i].id
  {
    seq(|ranked|, i requires 0 <= i < |ranked| => ProductOf(catalog, ranked[i].id))
  }

  /** Every key collected is the key of a catalog product. */
  lemma {:induction false} HitsInCatalog(catalog: seq<Product>, words: seq<string>, criterion: Criterion)
    ensures forall x :: x in Hits(catalog, words, criterion) ==> x in Ids(catalog)
    decreases |words|
  {
    if |words| > 0 {
      HitsInCatalog(catalog, words[..|words| - 1], criterion);
      var rows := Lookup(catalog, words[|words| - 1], criterion);
      forall x | x in IdsOf(rows)
        ensures x in Ids(catalog)
      {
        var k :| 0 <= k < |rows| && IdsOf(rows)[k] == x;
        assert rows[k] in catalog;
      }
    }
  }

  lemma RankedInCatalog(catalog: seq<Product>, words: seq<string>, criterion: Criterion)
    ensures forall i :: 0 <= i < |RankHits(Hits(catalog, words, criterion))| ==>
              RankHits(Hits(catalog, words, criterion))[i].id in Ids(catalog)
  {
    var hits := Hits(catalog, words, criterion);
    RankHitsIsRanking(hits);
    HitsInCatalog(catalog, words, criterion);
    var ranked := RankHits(hits);
    forall i | 0 <= i < |ranked|
      ensures ranked[i].id in Ids(catalog)
    {
      assert ranked[i].id in TallyIds(ranked);
    }
  }

  /** The list `_get_matching_product` returns. */
  function Rank(catalog: seq<Product>, words: seq<string>, criterion: Criterion): seq<Product>
  {
    RankedInCatalog(catalog, words, criterion);
    FetchAll(catalog, RankHits(Hits(catalog, words, criterion)))
  }

  /** The last loop of `_get_matching_product`: fetch each ranked product
      by its key, in ranking order. */
  method FetchProducts(catalog: seq<Product>, order: seq<Tally>) returns (resultsList: seq<Product>)
    requires forall i :: 0 <= i < |order| ==> order[i].id in Ids(catalog)
    ensures resultsList == FetchAll(catalog, order)
  {
    resultsList := [];
    for i := 0 to |order|
      invariant resultsList == FetchAll(catalog, order[..i])
    {
      assert FetchAll(catalog, order[..i + 1])
             == FetchAll(catalog, order[..i]) + [ProductOf(catalog, order[i].id)];
      resultsList := resultsList + [ProductOf(catalog, order[i].id)];
    }
    assert order[..|order|] == order;
  }

  /** `_get_matching_product(words, criterion)`. */
  method MatchingProducts(catalog: seq<Product>, words: seq<string>, criterion: Criterion)
    returns (resultsList: seq<Product>)
    ensures resultsList == Rank(catalog, words, criterion)
  {
    var results := CollectHits(catalog, words, criterion);
    results := SortDesc(results);
    var counted := CountRuns(results);
    var order := SortByCount(counted);
    assert order == RankHits(Hits(catalog, words, criterion));
    RankedInCatalog(catalog, words, criterion);
    resultsList := FetchProducts(catalog, order);
  }

  /** Each product's key is collected exactly `HitCount` times. */
  lemma {:induction false} HitsCount(catalog: seq<Product>, words: seq<string>, criterion: Criterion, p: Product)
    requires UniqueIds(catalog) && p in catalog
    ensures multiset(Hits(catalog, words, criterion))[p.id] == HitCount(p, words, criterion)
    decreases |words|
  {
    if |words| > 0 {
      HitsCount(catalog, words[..|words| - 1], criterion, p);
      LookupIdCount(catalog, words[|words| - 1], criterion, p.id);
      ProductOfUnique(catalog, p);
    }
  }

  /** `p` comes before `q` in a ranking: more hits, or as many hits and a
      larger key. */
  predicate Outranks(p: Product, q: Product, words: seq<string>, criterion: Criterion)
  {
    || HitCount(p, words, criterion) > HitCount(q, words, criterion)
    || (HitCount(p, words, criterion) == HitCount(q, words, criterion) && p.id > q.id)
  }

  /** The i-th ranked product is the catalog product carrying the i-th
      ranked key, and its hit count is the count of that tally. */
  lemma RankCounts(catalog: seq<Product>, words: seq<string>, criterion: Criterion)
    requires UniqueIds(catalog)
    ensures |Rank(catalog, words, criterion)| == |RankHits(Hits(catalog, words, criterion))|
    ensures forall i :: 0 <= i < |Rank(catalog, words, criterion)| ==>
              Rank(catalog, words, criterion)[i] in catalog
              && Rank(catalog, words, criterion)[i].id == RankHits(Hits(catalog, words, criterion))[i].id
              && HitCount(Rank(catalog, words, criterion)[i], words, criterion)
                 == RankHits(Hits(catalog, words, criterion))[i].count > 0
  {
    var hits := Hits(catalog, words, criterion);
    var ranked := RankHits(hits);
    var r := Rank(catalog, words, criterion);
    RankHitsCounts(hits);
    RankHitsKeys(hits);
    forall i | 0 <= i < |r|
      ensures r[i] in catalog && HitCount(r[i], words, criterion) == ranked[i].count > 0
    {
      HitsCount(catalog, words, criterion, r[i]);
      assert ranked[i].id in TallyIds(ranked);
    }
  }

  /** Every catalog product with at least one hit is ranked. */
  lemma RankComplete(catalog: seq<Product>, words: seq<string>, criterion: Criterion, p: Product)
    requires UniqueIds(catalog) && p in catalog && HitCount(p, words, criterion) > 0
    ensures p in Rank(catalog, words, criterion)
  {
    var hits := Hits(catalog, words, criterion);
    var ranked := RankHits(hits);
    var r := Rank(catalog, words, criterion);
    RankHitsKeys(hits);
    HitsCount(catalog, words, criterion, p);
    assert p.id in multiset(hits);
    assert p.id in TallyIds(ranked);
    var k :| 0 <= k < |ranked| && ranked[k].id == p.id;
    ProductOfUnique(catalog, p);
    assert r[k] == p;
  }

  /** The ranked list holds exactly the catalog products with at least one
      hit, each once, ordered by descending hit count and then by
      descending key. */
  lemma RankSpec(catalog: seq<Product>, words: seq<string>, criterion: Criterion)
    requires UniqueIds(catalog)
    ensures forall i :: 0 <= i < |Rank(catalog, words, criterion)| ==>
              Rank(catalog, words, criterion)[i] in catalog
              && HitCount(Rank(catalog, words, criterion)[i], words, criterion) > 0
    ensures forall p :: p in catalog && HitCount(p, words, criterion) > 0 ==>
              p in Rank(catalog, words, criterion)
    ensures forall i, j :: 0 <= i < j < |Rank(catalog, words, criterion)| ==>
              Outranks(Rank(catalog, words, criterion)[i], Rank(catalog, words, criterion)[j], words, criterion)
  {
    var hits := Hits(catalog, words, criterion);
    var ranked := RankHits(hits);
    var r := Rank(catalog, words, criterion);
    RankCounts(catalog, words, criterion);
    forall p | p in catalog && HitCount(p, words, criterion) > 0
      ensures p in r
    {
      RankComplete(catalog, words, criterion, p);
    }
    RankHitsOrdered(hits);
    forall i, j | 0 <= i < j < |r|
      ensures Outranks(r[i], r[j], words, criterion)
    {
      assert Before(ranked[i], ranked[j]);
    }
  }

  lemma OutranksAsymmetric(p: Product, q: Product, words: seq<string>, criterion: Criterion)
    ensures !(Outranks(p, q, words, criterion) && Outranks(q, p, words, criterion))
  {
  }

  /** Two lists of products, each ordered by `Outranks` and holding the same
      products, are the same list. */
  lemma {:induction false} OutranksUnique(a: seq<Product>, b: seq<Product>, words: seq<string>, criterion: Criterion)
    requires forall i, j :: 0 <= i < j < |a| ==> Outranks(a[i], a[j], words, criterion)
    requires forall i, j :: 0 <= i < j < |b| ==> Outranks(b[i], b[j], words, criterion)
    requires forall p :: p in a <==> p in b
    ensures a == b
  {
    if |a| == 0 {
      forall p
        ensures multiset(b)[p] == 0
      {
        assert p !in a;
      }
      assert multiset(b) == multiset{};
      assert |b| == |multiset(b)| == 0;
    } else {
      OutranksHeads(a, b, words, criterion);
      OutranksTails(a, b, words, criterion);
      OutranksUnique(a[1..], b[1..], words, criterion);
      calc {
        a;
        [a[0]] + a[1..];
        [b[0]] + b[1..];
        b;
      }
    }
  }

  /** Two such lists start with the same product, the one that outranks
      all the others. */
  lemma OutranksHeads(a: seq<Product>, b: seq<Product>, words: seq<string>, criterion: Criterion)
    requires forall i, j :: 0 <= i < j < |a| ==> Outranks(a[i], a[j], words, criterion)
    requires forall i, j :: 0 <= i < j < |b| ==> Outranks(b[i], b[j], words, criterion)
    requires forall p :: p in a <==> p in b
    requires |a| > 0
    ensures |b| > 0 && a[0] == b[0]
  {
    assert a[0] in b && |b| > 0 && b[0] in a;
    var i :| 0 <= i < |a| && a[i] == b[0];
    var j :| 0 <= j < |b| && b[j] == a[0];
    OutranksAsymmetric(a[0], b[0], words, criterion);
    assert i == 0 || j == 0;
  }

  /** Behind a common first product, the rest of both lists are again
      ordered and hold the same products. */
  lemma OutranksTails(a: seq<Product>, b: seq<Product>, words: seq<string>, criterion: Criterion)
    requires forall i, j :: 0 <= i < j < |a| ==> Outranks(a[i], a[j], words, criterion)
    requires forall i, j :: 0 <= i < j < |b| ==> Outranks(b[i], b[j], words, criterion)
    requires forall p :: p in a <==> p in b
    requires |a| > 0 && |b| > 0 && a[0] == b[0]
    ensures forall i, j :: 0 <= i < j < |a[1..]| ==> Outranks(a[1..][i], a[1..][j], words, criterion)
    ensures forall i, j :: 0 <= i < j < |b[1..]| ==> Outranks(b[1..][i], b[1..][j], words, criterion)
    ensures forall p :: p in a[1..] <==> p in b[1..]
  {
    forall p
      ensures p in a[1..] <==> p in b[1..]
    {
      if p in a[1..] {
        var k :| 0 <= k < |a[1..]| && a[1..][k] == p;
        assert Outranks(a[0], a[k + 1], words, criterion);
        assert p in b;
        assert p != b[0];
      }
      if p in b[1..] {
        var k :| 0 <= k < |b[1..]| && b[1..][k] == p;
        assert Outranks(b[0], b[k + 1], words, criterion);
        assert p in a;
        assert p != a[0];
      }
    }
  }

  /** The ranking is the only list of catalog products that holds exactly
      the products with a hit, ordered by `Outranks`. */
  lemma RankCharacterized(catalog: seq<Product>, words: seq<string>, criterion: Criterion, r: seq<Product>)
    requires UniqueIds(catalog)
    requires forall i :: 0 <= i < |r| ==> r[i] in catalog && HitCount(r[i], words, criterion) > 0
    requires forall p :: p in catalog && HitCount(p, words, criterion) > 0 ==> p in r
    requires forall i, j :: 0 <= i < j < |r| ==> Outranks(r[i], r[j], words, criterion)
    ensures r == Rank(catalog, words, criterion)
  {
    var ranked := Rank(catalog, words, criterion);
    RankSpec(catalog, words, criterion);
    forall p
      ensures p in r <==> p in ranked
    {
      if p in r {
        var k :| 0 <= k < |r| && r[k] == p;
      }
      if p in ranked {
        var k :| 0 <= k < |ranked| && ranked[k] == p;
      }
    }
    OutranksUnique(r, ranked, words, criterion);
  }

  /** A product has a hit exactly when one of the words yields it. */
  lemma {:induction false} HitCountPositive(p: Product, words: seq<string>, criterion: Criterion)
    ensures HitCount(p, words, criterion) > 0 <==> exists w :: w in words && RowsFor(p, w, criterion) > 0
    decreases |words|
  {
    if |words| > 0 {
      var front := words[..|words| - 1];
      var last := words[|words| - 1];
      HitCountPositive(p, front, criterion);
      assert words == front + [last];
      assert forall w :: w in words <==> w in front || w == last;
    }
  }

  /** `_get_matching_product` returns an empty list exactly when no word
      hits any product. */
  lemma RankEmptyIff(catalog: seq<Product>, words: seq<string>, criterion: Criterion)
    requires UniqueIds(catalog)
    ensures |Rank(catalog, words, criterion)| == 0 <==>
            forall p :: p in catalog ==> HitCount(p, words, criterion) == 0
  {
    RankSpec(catalog, words, criterion);
    var r := Rank(catalog, words, criterion);
    if |r| > 0 {
      assert r[0] in catalog && HitCount(r[0], words, criterion) > 0;
    }
  }

  /** The first product of a non-empty ranking outranks every other product
      of the catalog. */
  lemma FirstOutranksAll(catalog: seq<Product>, words: seq<string>, criterion: Criterion, q: Product)
    requires UniqueIds(catalog) && q in catalog
    requires |Rank(catalog, words, criterion)| > 0
    ensures q == Rank(catalog, words, criterion)[0] || Outranks(Rank(catalog, words, criterion)[0], q, words, criterion)
  {
    RankSpec(catalog, words, criterion);
    var r := Rank(catalog, words, criterion);
    if HitCount(q, words, criterion) > 0 {
      var k :| 0 <= k < |r| && r[k] == q;
    }
  }

  lemma {:induction false} HitCountAppend(p: Product, w1: seq<string>, w2: seq<string>, criterion: Criterion)
    ensures HitCount(p, w1 + w2, criterion) == HitCount(p, w1, criterion) + HitCount(p, w2, criterion)
    decreases |w2|
  {
    if |w2| > 0 {
      assert (w1 + w2)[..|w1 + w2| - 1] == w1 + w2[..|w2| - 1];
      HitCountAppend(p, w1, w2[..|w2| - 1], criterion);
    } else {
      assert w1 + w2 == w1;
    }
  }

  /** Taking the word at index `k` out of the list takes its rows out of
      the hit count. */
  lemma HitCountRemove(p: Product, w: seq<string>, k: nat, criterion: Criterion)
    requires k < |w|
    ensures HitCount(p, w, criterion) == HitCount(p, w[..k] + w[k + 1..], criterion) + RowsFor(p, w[k], criterion)
  {
    assert w == (w[..k] + [w[k]]) + w[k + 1..];
    HitCountAppend(p, w[..k] + [w[k]], w[k + 1..], criterion);
    HitCountAppend(p, w[..k], [w[k]], criterion);
    HitCountAppend(p, w[..k], w[k + 1..], criterion);
    assert HitCount(p, [w[k]], criterion) == RowsFor(p, w[k], criterion) by {
      assert [w[k]][..0] == [];
    }
  }

  lemma MultisetRemove(w: seq<string>, k: nat)
    requires k < |w|
    ensures multiset(w) == multiset(w[..k] + w[k + 1..]) + multiset{w[k]}
  {
    assert w == w[..k] + [w[k]] + w[k + 1..];
  }

  lemma MultisetCancel(a: multiset<string>, b: multiset<string>, x: string)
    requires a + multiset{x} == b + multiset{x}
    ensures a == b
  {
    forall y
      ensures a[y] == b[y]
    {
      assert (a + multiset{x})[y] == (b + multiset{x})[y];
    }
  }

  /** A product's hit count does not depend on the order of the words. */
  lemma {:induction false} HitCountOrderFree(p: Product, w1: seq<string>, w2: seq<string>, criterion: Criterion)
    requires multiset(w1) == multiset(w2)
    ensures HitCount(p, w1, criterion) == HitCount(p, w2, criterion)
    decreases |w1|
  {
    if |w1| > 0 {
      var last := w1[|w1| - 1];
      var front := w1[..|w1| - 1];
      assert last in multiset(w2);
      var k :| 0 <= k < |w2| && w2[k] == last;
      var rest := w2[..k] + w2[k + 1..];
      MultisetRemove(w1, |w1| - 1);
      MultisetRemove(w2, k);
      assert w1[..|w1| - 1] + w1[|w1|..] == front;
      MultisetCancel(multiset(front), multiset(rest), last);
      HitCountOrderFree(p, front, rest, criterion);
      HitCountRemove(p, w2, k, criterion);
    } else {
      assert |w2| == |multiset(w2)| == 0;
    }
  }

  /** Products that collect the same hit counts are ranked the same way. */
  lemma RankByCounts(catalog: seq<Product>, w1: seq<string>, w2: seq<string>, c1: Criterion, c2: Criterion)
    requires UniqueIds(catalog)
    requires forall p :: p in catalog ==> HitCount(p, w1, c1) == HitCount(p, w2, c2)
    ensures Rank(catalog, w1, c1) == Rank(catalog, w2, c2)
  {
    var h1 := Hits(catalog, w1, c1);
    var h2 := Hits(catalog, w2, c2);
    HitsInCatalog(catalog, w1, c1);
    HitsInCatalog(catalog, w2, c2);
    forall x
      ensures multiset(h1)[x] == multiset(h2)[x]
    {
      if x in Ids(catalog) {
        var p :| p in catalog && p.id == x;
        HitsCount(catalog, w1, c1, p);
        HitsCount(catalog, w2, c2, p);
      } else {
        assert x !in h1 && x !in h2;
      }
    }
    assert multiset(h1) == multiset(h2);
    RankHitsOrderFree(h1, h2);
  }

  /** The ranking does not depend on the order of the words: the query
      `"gamma+beta"` ranks as `"beta+gamma"` does. */
  lemma RankWordOrderFree(catalog: seq<Product>, w1: seq<string>, w2: seq<string>, criterion: Criterion)
    requires UniqueIds(catalog)
    requires multiset(w1) == multiset(w2)
    ensures Rank(catalog, w1, criterion) == Rank(catalog, w2, criterion)
  {
    forall p | p in catalog
      ensures HitCount(p, w1, criterion) == HitCount(p, w2, criterion)
    {
      HitCountOrderFree(p, w1, w2, criterion);
    }
    RankByCounts(catalog, w1, w2, criterion, criterion);
  }
}
