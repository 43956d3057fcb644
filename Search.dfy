/** The `search` view: split the query on `+`, take the best match by name
    as the base product, rank the products that share its categories, keep
    those with a better nutrition grade, and build the page context. */
module Search {
  import opened Text
  import opened Catalog
  import opened Matcher

  /** At most this many substitutes are shown (`substitute_list[:6]`). */
  const MaxSubstitutes := 6

  /** The user behind the request: whether they are logged in, and the
      products they have bookmarked. */
  datatype Visitor = Visitor(authenticated: bool, bookmarks: seq<Product>)

  /** The context handed to the template. A search that finds no base
      product carries only the status `"error"`. */
  datatype Page =
    | NotFound
    | Found(status: string, base: Product, substitutes: seq<Product>, bookmarked: seq<Product>)

  /** The `status` entry of the context. */
  function Status(page: Page): string
  {
    if page.NotFound? then "error" else page.status
  }

  /** The candidates whose grade is strictly better than `grade`, in order
      (`substitute.grade < base_product.grade`, Python's `<` on `str`). */
  function Better(candidates: seq<Product>, grade: string): (kept: seq<Product>)
    ensures |kept| <= |candidates|
    decreases |candidates|
  {
    if |candidates| == 0 then []
    else
      var last := candidates[|candidates| - 1];
      Better(candidates[..|candidates| - 1], grade) + (if Less(last.grade, grade) then [last] else [])
  }

  /** `substitute_list[:6]`: Python's slice keeps the whole list when it is
      shorter than the bound. */
  function Take(s: seq<Product>, n: nat): (t: seq<Product>)
    ensures |t| == if |s| <= n then |s| else n
    ensures t == s[..|t|]
  {
    if |s| <= n then s else s[..n]
  }

  /** The page `search` renders for `query` (the `query` parameter of the
      request) and `visitor`. */
  function SearchPage(catalog: seq<Product>, query: string, visitor: Visitor): (page: Page)
    ensures page.Found? ==> page.base in catalog && |page.substitutes| <= MaxSubstitutes
  {
    var ranked := Rank(catalog, Split(query, '+'), ByName);
    if |ranked| == 0 then NotFound
    else
      var base := ranked[0];
      var kept := Better(Rank(catalog, base.categories, ByCategory), base.grade);
      if visitor.authenticated then Found("ok connect", base, Take(kept, MaxSubstitutes), visitor.bookmarks)
      else Found("ok", base, Take(kept, MaxSubstitutes), [])
  }

  /** The filtering loop of `search`. */
  method FilterBetter(candidates: seq<Product>, grade: string) returns (kept: seq<Product>)
    ensures kept == Better(candidates, grade)
  {
    kept := [];
    for i := 0 to |candidates|
      invariant kept == Better(candidates[..i], grade)
    {
      assert candidates[..i + 1][..i] == candidates[..i];
      if Less(candidates[i].grade, grade) {
        kept := kept + [candidates[i]];
      }
    }
    assert candidates[..|candidates|] == candidates;
  }

  /** `search(request)`: the context it renders. */
  method SearchView(catalog: seq<Product>, query: string, visitor: Visitor) returns (page: Page)
    ensures page == SearchPage(catalog, query, visitor)
  {
    var userInput := Split(query, '+');
    var matches := MatchingProducts(catalog, userInput, ByName);
    if |matches| == 0 {
      return NotFound;
    }
    var base := matches[0];
    var categoryList := base.categories;
    var candidates := MatchingProducts(catalog, categoryList, ByCategory);
    var substituteList := FilterBetter(candidates, base.grade);
    if visitor.authenticated {
      page := Found("ok connect", base, Take(substituteList, MaxSubstitutes), visitor.bookmarks);
    } else {
      page := Found("ok", base, Take(substituteList, MaxSubstitutes), []);
    }
  }

  /** A candidate is kept exactly when its grade is better. */
  lemma {:induction false} BetterMembers(candidates: seq<Product>, grade: string, p: Product)
    ensures p in Better(candidates, grade) <==> p in candidates && Less(p.grade, grade)
    decreases |candidates|
  {
    if |candidates| > 0 {
      var front := candidates[..|candidates| - 1];
      var last := candidates[|candidates| - 1];
      BetterMembers(front, grade, p);
      assert candidates == front + [last];
    }
  }

  /** Filtering keeps the order of the candidates: whatever ordering held
      between the candidates holds between the kept ones. */
  lemma {:induction false} BetterOrdered(candidates: seq<Product>, grade: string, words: seq<string>, criterion: Criterion)
    requires forall i, j :: 0 <= i < j < |candidates| ==> Outranks(candidates[i], candidates[j], words, criterion)
    ensures forall i, j :: 0 <= i < j < |Better(candidates, grade)| ==>
              Outranks(Better(candidates, grade)[i], Better(candidates, grade)[j], words, criterion)
    decreases |candidates|
  {
    if |candidates| > 0 {
      var front := candidates[..|candidates| - 1];
      var last := candidates[|candidates| - 1];
      var kept := Better(front, grade);
      BetterOrdered(front, grade, words, criterion);
      forall i | 0 <= i < |kept|
        ensures Outranks(kept[i], last, words, criterion)
      {
        BetterMembers(front, grade, kept[i]);
        var k :| 0 <= k < |front| && front[k] == kept[i];
        assert candidates[k] == kept[i];
      }
    }
  }

  /** The grade of a shown substitute is better, so it is never the base. */
  lemma SubstituteNotBase(catalog: seq<Product>, query: string, visitor: Visitor)
    requires SearchPage(catalog, query, visitor).Found?
    ensures SearchPage(catalog, query, visitor).base !in SearchPage(catalog, query, visitor).substitutes
  {
    var page := SearchPage(catalog, query, visitor);
    var candidates := Rank(catalog, page.base.categories, ByCategory);
    var kept := Better(candidates, page.base.grade);
    if page.base in page.substitutes {
      assert page.base in kept;
      BetterMembers(candidates, page.base.grade, page.base);
      LessIrreflexive(page.base.grade);
    }
  }

  /** A name lookup finds nothing exactly when no word occurs in any name. */
  lemma NoNameMatchIff(catalog: seq<Product>, words: seq<string>)
    requires UniqueIds(catalog)
    ensures |Rank(catalog, words, ByName)| == 0 <==>
            forall p, w :: p in catalog && w in words ==> !IContains(p.name, w)
  {
    RankEmptyIff(catalog, words, ByName);
    forall p | p in catalog
      ensures HitCount(p, words, ByName) == 0 <==> forall w :: w in words ==> !IContains(p.name, w)
    {
      HitCountPositive(p, words, ByName);
    }
  }

  /** The search fails exactly when no word of the query occurs in the name
      of any product. */
  lemma SearchNotFoundIff(catalog: seq<Product>, query: string, visitor: Visitor)
    requires UniqueIds(catalog)
    ensures SearchPage(catalog, query, visitor).NotFound? <==>
            forall p, w :: p in catalog && w in Split(query, '+') ==> !IContains(p.name, w)
  {
    NoNameMatchIff(catalog, Split(query, '+'));
    assert SearchPage(catalog, query, visitor).NotFound? <==> |Rank(catalog, Split(query, '+'), ByName)| == 0;
  }

  /** The status and the bookmarks shown depend on the visitor alone: a
      logged-in visitor gets `"ok connect"` and their bookmarks, anyone else
      `"ok"` and no bookmarks; a failed search has status `"error"`. */
  lemma SearchContext(catalog: seq<Product>, query: string, visitor: Visitor)
    ensures SearchPage(catalog, query, visitor).NotFound? ==> Status(SearchPage(catalog, query, visitor)) == "error"
    ensures SearchPage(catalog, query, visitor).Found? ==>
              && Status(SearchPage(catalog, query, visitor)) == (if visitor.authenticated then "ok connect" else "ok")
              && SearchPage(catalog, query, visitor).bookmarked == (if visitor.authenticated then visitor.bookmarks else [])
    ensures SearchPage(catalog, query, visitor).Found? <==>
            SearchPage(catalog, query, Visitor(!visitor.authenticated, visitor.bookmarks)).Found?
  {
  }

  /** The base product is a catalog product whose name contains a word of
      the query, and it beats every other product: more words matched, or
      as many and a larger key. */
  lemma BaseIsBestMatch(catalog: seq<Product>, query: string, visitor: Visitor)
    requires UniqueIds(catalog)
    requires SearchPage(catalog, query, visitor).Found?
    ensures SearchPage(catalog, query, visitor).base in catalog
    ensures exists w :: w in Split(query, '+') && IContains(SearchPage(catalog, query, visitor).base.name, w)
    ensures forall q :: q in catalog ==>
              q == SearchPage(catalog, query, visitor).base
              || Outranks(SearchPage(catalog, query, visitor).base, q, Split(query, '+'), ByName)
  {
    var words := Split(query, '+');
    var base := SearchPage(catalog, query, visitor).base;
    RankSpec(catalog, words, ByName);
    HitCountPositive(base, words, ByName);
    forall q | q in catalog
      ensures q == base || Outranks(base, q, words, ByName)
    {
      FirstOutranksAll(catalog, words, ByName, q);
    }
  }

  /** What is shown is drawn from the ranked candidates with a better grade,
      each sharing a category with the searched ones. */
  lemma ShownAreBetter(catalog: seq<Product>, words: seq<string>, grade: string)
    requires UniqueIds(catalog)
    ensures forall s :: s in Take(Better(Rank(catalog, words, ByCategory), grade), MaxSubstitutes) ==>
              && s in catalog
              && Less(s.grade, grade)
              && exists c, w :: c in s.categories && w in words && IContains(c, w)
  {
    var candidates := Rank(catalog, words, ByCategory);
    var kept := Better(candidates, grade);
    var shown := Take(kept, MaxSubstitutes);
    RankSpec(catalog, words, ByCategory);
    forall s | s in shown
      ensures s in catalog && Less(s.grade, grade)
      ensures exists c, w :: c in s.categories && w in words && IContains(c, w)
    {
      assert s in kept;
      BetterMembers(candidates, grade, s);
      HitCountPositive(s, words, ByCategory);
      var w :| w in words && RowsFor(s, w, ByCategory) > 0;
      var c :| c in s.categories && IContains(c, w);
    }
  }

  /** Every substitute shown is a catalog product with a strictly better
      grade than the base, and one of its categories contains the name of
      one of the base product's categories. */
  lemma SubstitutesAreBetter(catalog: seq<Product>, query: string, visitor: Visitor)
    requires UniqueIds(catalog)
    requires SearchPage(catalog, query, visitor).Found?
    ensures forall s :: s in SearchPage(catalog, query, visitor).substitutes ==>
              && s in catalog
              && Less(s.grade, SearchPage(catalog, query, visitor).base.grade)
              && exists c, w :: c in s.categories && w in SearchPage(catalog, query, visitor).base.categories
                                && IContains(c, w)
  {
    var base := SearchPage(catalog, query, visitor).base;
    ShownAreBetter(catalog, base.categories, base.grade);
  }

  /** Filtering and truncating keep the order of the candidates. */
  lemma ShownOrdered(candidates: seq<Product>, grade: string, words: seq<string>, criterion: Criterion)
    requires forall i, j :: 0 <= i < j < |candidates| ==> Outranks(candidates[i], candidates[j], words, criterion)
    ensures forall i, j :: 0 <= i < j < |Take(Better(candidates, grade), MaxSubstitutes)| ==>
              Outranks(Take(Better(candidates, grade), MaxSubstitutes)[i],
                       Take(Better(candidates, grade), MaxSubstitutes)[j], words, criterion)
  {
    var kept := Better(candidates, grade);
    var shown := Take(kept, MaxSubstitutes);
    BetterOrdered(candidates, grade, words, criterion);
    forall i, j | 0 <= i < j < |shown|
      ensures Outranks(shown[i], shown[j], words, criterion)
    {
      assert shown[i] == kept[i] && shown[j] == kept[j];
    }
  }

  /** The substitutes come in ranking order: more category hits first, and
      among equal hits the larger key first. */
  lemma SubstitutesOrdered(catalog: seq<Product>, query: string, visitor: Visitor)
    requires UniqueIds(catalog)
    requires SearchPage(catalog, query, visitor).Found?
    ensures forall i, j :: 0 <= i < j < |SearchPage(catalog, query, visitor).substitutes| ==>
              Outranks(SearchPage(catalog, query, visitor).substitutes[i], SearchPage(catalog, query, visitor).substitutes[j],
                       SearchPage(catalog, query, visitor).base.categories, ByCategory)
  {
    var page := SearchPage(catalog, query, visitor);
    var words := page.base.categories;
    RankSpec(catalog, words, ByCategory);
    ShownOrdered(Rank(catalog, words, ByCategory), page.base.grade, words, ByCategory);
  }

  /** A better candidate is shown unless six that outrank it fill the list. */
  lemma ShownComplete(catalog: seq<Product>, words: seq<string>, grade: string, q: Product)
    requires UniqueIds(catalog)
    requires q in catalog && Less(q.grade, grade)
    requires exists c, w :: c in q.categories && w in words && IContains(c, w)
    ensures || q in Take(Better(Rank(catalog, words, ByCategory), grade), MaxSubstitutes)
            || (&& |Take(Better(Rank(catalog, words, ByCategory), grade), MaxSubstitutes)| == MaxSubstitutes
                && forall s :: s in Take(Better(Rank(catalog, words, ByCategory), grade), MaxSubstitutes) ==>
                     Outranks(s, q, words, ByCategory))
  {
    var candidates := Rank(catalog, words, ByCategory);
    var kept := Better(candidates, grade);
    var c, w :| c in q.categories && w in words && IContains(c, w);
    assert RowsFor(q, w, ByCategory) > 0;
    HitCountPositive(q, words, ByCategory);
    RankSpec(catalog, words, ByCategory);
    BetterMembers(candidates, grade, q);
    BetterOrdered(candidates, grade, words, ByCategory);
    TakeComplete(kept, q, words, ByCategory);
  }

  /** Cutting an ordered list at six keeps each of its products, unless six
      products ahead of it fill the cut. */
  lemma TakeComplete(kept: seq<Product>, q: Product, words: seq<string>, criterion: Criterion)
    requires q in kept
    requires forall i, j :: 0 <= i < j < |kept| ==> Outranks(kept[i], kept[j], words, criterion)
    ensures || q in Take(kept, MaxSubstitutes)
            || (&& |Take(kept, MaxSubstitutes)| == MaxSubstitutes
                && forall s :: s in Take(kept, MaxSubstitutes) ==> Outranks(s, q, words, criterion))
  {
    var shown := Take(kept, MaxSubstitutes);
    var k :| 0 <= k < |kept| && kept[k] == q;
    if k < |shown| {
      assert shown[k] == q;
    } else {
      forall s | s in shown
        ensures Outranks(s, q, words, criterion)
      {
        var i :| 0 <= i < |shown| && shown[i] == s;
        assert kept[i] == s;
      }
    }
  }

  /** No better product sharing a category is passed over: each one is shown,
      unless the six places are all taken by products that outrank it. */
  lemma SubstitutesComplete(catalog: seq<Product>, query: string, visitor: Visitor, q: Product)
    requires UniqueIds(catalog)
    requires SearchPage(catalog, query, visitor).Found?
    requires q in catalog && Less(q.grade, SearchPage(catalog, query, visitor).base.grade)
    requires exists c, w :: c in q.categories && w in SearchPage(catalog, query, visitor).base.categories && IContains(c, w)
    ensures || q in SearchPage(catalog, query, visitor).substitutes
            || (&& |SearchPage(catalog, query, visitor).substitutes| == MaxSubstitutes
                && forall s :: s in SearchPage(catalog, query, visitor).substitutes ==>
                     Outranks(s, q, SearchPage(catalog, query, visitor).base.categories, ByCategory))
  {
    var base := SearchPage(catalog, query, visitor).base;
    ShownComplete(catalog, base.categories, base.grade, q);
  }

  /** No grade is better than the empty grade. */
  lemma {:induction false} NothingBetterThanEmpty(candidates: seq<Product>)
    ensures Better(candidates, "") == []
    decreases |candidates|
  {
    if |candidates| > 0 {
      NothingBetterThanEmpty(candidates[..|candidates| - 1]);
    }
  }

  /** A base product with an empty grade has no substitutes. */
  lemma NoSubstitutesBelowEmptyGrade(catalog: seq<Product>, query: string, visitor: Visitor)
    requires SearchPage(catalog, query, visitor).Found?
    requires SearchPage(catalog, query, visitor).base.grade == ""
    ensures SearchPage(catalog, query, visitor).substitutes == []
  {
    var base := SearchPage(catalog, query, visitor).base;
    NothingBetterThanEmpty(Rank(catalog, base.categories, ByCategory));
  }

  /** The order of the words in the query does not matter:
      `"gamma+beta"` and `"beta+gamma"` render the same page. */
  lemma SearchWordOrderFree(catalog: seq<Product>, q1: string, q2: string, visitor: Visitor)
    requires UniqueIds(catalog)
    requires multiset(Split(q1, '+')) == multiset(Split(q2, '+'))
    ensures SearchPage(catalog, q1, visitor) == SearchPage(catalog, q2, visitor)
  {
    RankWordOrderFree(catalog, Split(q1, '+'), Split(q2, '+'), ByName);
  }
}
