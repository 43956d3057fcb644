/** Case-insensitive containment facts about the product and category
    names used by the search tests, each reduced to a check on single
    characters. */
module TestText {
  import opened Text

  /** `n` does not contain `p` when some letter of `p` occurs in `n` in
      neither case. */
  lemma LacksLetter(n: string, p: string, i: nat, c: char)
    requires i < |p| && 'a' <= c <= 'z' && Lower(p[i]) == c
    requires c !in n && (c as int - 32) as char !in n
    ensures !IContains(n, p)
  {
    FoldAt(p, i);
    forall j | 0 <= j < |n|
      ensures Fold(n)[j] != c
    {
      FoldAt(n, j);
    }
    ContainsChars(Fold(n), Fold(p), c);
  }

  /** `n` does not contain `p` when the first two letters of `p` never
      stand side by side in `n`, in any case. */
  lemma LacksLetterPair(n: string, p: string, c: char, d: char)
    requires |p| >= 2 && Lower(p[0]) == c && Lower(p[1]) == d
    requires forall k :: 0 <= k < |n| - 1 ==> Lower(n[k]) != c || Lower(n[k + 1]) != d
    ensures !IContains(n, p)
  {
    FoldAt(p, 0);
    FoldAt(p, 1);
    forall k | 0 <= k < |n| - 1
      ensures Fold(n)[k] != c || Fold(n)[k + 1] != d
    {
      FoldAt(n, k);
      FoldAt(n, k + 1);
    }
    NoAdjacentPair(Fold(n), Fold(p));
  }

  /** `n` contains `p` when `p` occurs in `n` at index `k`, up to case. */
  lemma HasAt(n: string, p: string, k: nat)
    requires k + |p| <= |n|
    requires forall i :: 0 <= i < |p| ==> Lower(n[k + i]) == Lower(p[i])
    ensures IContains(n, p)
  {
    forall i | 0 <= i < |p|
      ensures Fold(n)[k..k + |p|][i] == Fold(p)[i]
    {
      FoldAt(n, k + i);
      FoldAt(p, i);
    }
    assert OccursAt(Fold(n), Fold(p), k);
    ContainsIffOccurs(Fold(n), Fold(p));
  }

  /** None of `names` contains `p` when a letter of `p` occurs in none of
      them, in either case. */
  lemma LacksLetterAll(names: seq<string>, p: string, i: nat, c: char)
    requires i < |p| && 'a' <= c <= 'z' && Lower(p[i]) == c
    requires forall n :: n in names ==> c !in n && (c as int - 32) as char !in n
    ensures forall n :: n in names ==> !IContains(n, p)
  {
    forall n | n in names
      ensures !IContains(n, p)
    {
      LacksLetter(n, p, i, c);
    }
  }

  /** Two strings of one length that differ, up to case, at index `i`
      do not contain one another. */
  lemma DiffersAt(n: string, p: string, i: nat)
    requires |n| == |p| && i < |p| && Lower(n[i]) != Lower(p[i])
    ensures !IContains(n, p)
  {
    FoldAt(n, i);
    FoldAt(p, i);
    SameLengthContains(Fold(n), Fold(p));
  }

  /** The product names of the tests that contain a query word, one fact
      per lemma. */
  lemma AlphaBetaHasBeta()
    ensures IContains("alpha beta", "beta")
  {
    HasAt("alpha beta", "beta", 6);
  }

  lemma BetaGammaHasBeta()
    ensures IContains("beta gamma", "beta")
  {
    HasAt("beta gamma", "beta", 0);
  }

  lemma BetaGammaHasGamma()
    ensures IContains("beta gamma", "gamma")
  {
    HasAt("beta gamma", "gamma", 5);
  }

  lemma GammaDeltaHasGamma()
    ensures IContains("gamma delta", "gamma")
  {
    HasAt("gamma delta", "gamma", 0);
  }

  lemma NoGammaInSubstitutes()
    ensures forall n :: n in ["substitute", "best substitute", "no substitute"] ==> !IContains(n, "gamma")
  {
    LacksLetterAll(["substitute", "best substitute", "no substitute"], "gamma", 0, 'g');
  }

  lemma NoGammaElsewhere()
    ensures forall n :: n in ["alpha beta", "unealthy substitute"] ==> !IContains(n, "gamma")
  {
    LacksLetterAll(["alpha beta", "unealthy substitute"], "gamma", 0, 'g');
  }

  lemma NoBetaInSubstitutes()
    ensures forall n :: n in ["substitute", "best substitute", "no substitute"] ==> !IContains(n, "beta")
  {
    LacksLetterAll(["substitute", "best substitute", "no substitute"], "beta", 3, 'a');
  }

  lemma NoBetaInGammaDelta()
    ensures !IContains("gamma delta", "beta")
  {
    LacksLetter("gamma delta", "beta", 0, 'b');
  }

  /** `"unealthy substitute"` holds every letter of `"beta"`, but never a
      `b` followed by an `e`. */
  lemma NoBetaInUnhealthy()
    ensures !IContains("unealthy substitute", "beta")
  {
    LacksLetterPair("unealthy substitute", "beta", 'b', 'e');
  }

  lemma NoEpsilonWithoutS()
    ensures forall n :: n in ["alpha beta", "beta gamma", "gamma delta"] ==> !IContains(n, "epsilon")
  {
    LacksLetterAll(["alpha beta", "beta gamma", "gamma delta"], "epsilon", 2, 's');
  }

  lemma NoEpsilonWithoutP()
    ensures forall n :: n in ["substitute", "best substitute", "no substitute", "unealthy substitute"] ==>
              !IContains(n, "epsilon")
  {
    LacksLetterAll(["substitute", "best substitute", "no substitute", "unealthy substitute"], "epsilon", 1, 'p');
  }

  /** Which of the four category names contain the category word `"cata"`. */
  lemma CategoryCata()
    ensures IContains("cata", "cata") && !IContains("catb", "cata")
    ensures !IContains("catc", "cata") && !IContains("catd", "cata")
  {
    HasAt("cata", "cata", 0);
    DiffersAt("catb", "cata", 3);
    DiffersAt("catc", "cata", 3);
    DiffersAt("catd", "cata", 3);
  }

  lemma CategoryCatb()
    ensures IContains("catb", "catb") && !IContains("cata", "catb")
    ensures !IContains("catc", "catb") && !IContains("catd", "catb")
  {
    HasAt("catb", "catb", 0);
    DiffersAt("cata", "catb", 3);
    DiffersAt("catc", "catb", 3);
    DiffersAt("catd", "catb", 3);
  }

  lemma CategoryCatc()
    ensures IContains("catc", "catc") && !IContains("cata", "catc")
    ensures !IContains("catb", "catc") && !IContains("catd", "catc")
  {
    HasAt("catc", "catc", 0);
    DiffersAt("cata", "catc", 3);
    DiffersAt("catb", "catc", 3);
    DiffersAt("catd", "catc", 3);
  }
}

/** The catalog set up by the search tests of the substituter app, and the
    outcomes those tests expect, derived from the model. Primary keys follow
    the order in which the tests create the products. */
module Scenario {
  import opened Text
  import opened Catalog
  import opened Matcher
  import opened Search
  import opened TestText

  const AlphaBeta := Product(1, "alpha beta", "", [])
  const BetaGamma := Product(2, "beta gamma", "c", ["cata", "catb", "catc"])
  const GammaDelta := Product(3, "gamma delta", "", [])
  const PlainSubstitute := Product(4, "substitute", "b", ["cata"])
  const BestSubstitute := Product(5, "best substitute", "b", ["cata", "catb"])
  const NoSubstitute := Product(6, "no substitute", "b", ["catd"])
  const UnhealthySubstitute := Product(7, "unealthy substitute", "d", ["cata", "catb", "catc"])

  const TestCatalog := [AlphaBeta, BetaGamma, GammaDelta, PlainSubstitute, BestSubstitute, NoSubstitute, UnhealthySubstitute]

  /** The query of the tests, split on `+`. */
  const QueryWords := ["gamma", "beta"]

  /** The category names of the base product, the words of the second search. */
  const CategoryWords := ["cata", "catb", "catc"]

  lemma UniqueTestIds()
    ensures UniqueIds(TestCatalog)
  {
  }

  lemma TestCatalogMembers(p: Product)
    requires p in TestCatalog
    ensures p.id == 1 ==> p == AlphaBeta
    ensures p.id == 2 ==> p == BetaGamma
    ensures p.id == 3 ==> p == GammaDelta
    ensures p.id == 4 ==> p == PlainSubstitute
    ensures p.id == 5 ==> p == BestSubstitute
    ensures p.id == 6 ==> p == NoSubstitute
    ensures p.id == 7 ==> p == UnhealthySubstitute
    ensures 1 <= p.id <= 7
  {
  }

  lemma QueryWordsSplit()
    ensures Split("gamma+beta", '+') == QueryWords
  {
    assert Join(QueryWords, '+') == "gamma+beta";
    SplitJoin(QueryWords, '+');
  }

  lemma HitCountOfOne(p: Product, a: string, criterion: Criterion)
    ensures HitCount(p, [a], criterion) == RowsFor(p, a, criterion)
  {
    assert [a][..0] == [];
  }

  lemma HitCountOfTwo(p: Product, a: string, b: string, criterion: Criterion)
    ensures HitCount(p, [a, b], criterion) == RowsFor(p, a, criterion) + RowsFor(p, b, criterion)
  {
    assert [a, b][..1] == [a];
    HitCountOfOne(p, a, criterion);
  }

  lemma HitCountOfThree(p: Product, a: string, b: string, c: string, criterion: Criterion)
    ensures HitCount(p, [a, b, c], criterion)
            == RowsFor(p, a, criterion) + RowsFor(p, b, criterion) + RowsFor(p, c, criterion)
  {
    assert [a, b, c][..2] == [a, b];
    HitCountOfTwo(p, a, b, criterion);
  }

  lemma AlphaBetaNameHits()
    ensures HitCount(AlphaBeta, QueryWords, ByName) == 1
  {
    HitCountOfTwo(AlphaBeta, "gamma", "beta", ByName);
    NoGammaElsewhere();
    AlphaBetaHasBeta();
  }

  lemma BetaGammaNameHits()
    ensures HitCount(BetaGamma, QueryWords, ByName) == 2
  {
    HitCountOfTwo(BetaGamma, "gamma", "beta", ByName);
    BetaGammaHasGamma();
    BetaGammaHasBeta();
  }

  lemma GammaDeltaNameHits()
    ensures HitCount(GammaDelta, QueryWords, ByName) == 1
  {
    HitCountOfTwo(GammaDelta, "gamma", "beta", ByName);
    GammaDeltaHasGamma();
    NoBetaInGammaDelta();
  }

  lemma SubstituteNameHits(p: Product)
    requires p in [PlainSubstitute, BestSubstitute, NoSubstitute]
    ensures HitCount(p, QueryWords, ByName) == 0
  {
    HitCountOfTwo(p, "gamma", "beta", ByName);
    NoGammaInSubstitutes();
    NoBetaInSubstitutes();
  }

  lemma UnhealthyNameHits()
    ensures HitCount(UnhealthySubstitute, QueryWords, ByName) == 0
  {
    HitCountOfTwo(UnhealthySubstitute, "gamma", "beta", ByName);
    NoGammaElsewhere();
    NoBetaInUnhealthy();
  }

  lemma CategoryHitsOfThree(p: Product)
    requires p.categories == CategoryWords
    ensures HitCount(p, CategoryWords, ByCategory) == 3
  {
    HitCountOfThree(p, "cata", "catb", "catc", ByCategory);
    CategoryCata();
    CategoryCatb();
    CategoryCatc();
  }

  lemma CategoryHitsOfBest()
    ensures HitCount(BestSubstitute, CategoryWords, ByCategory) == 2
  {
    HitCountOfThree(BestSubstitute, "cata", "catb", "catc", ByCategory);
    CategoryCata();
    CategoryCatb();
    CategoryCatc();
  }

  lemma CategoryHitsOfPlain()
    ensures HitCount(PlainSubstitute, CategoryWords, ByCategory) == 1
  {
    HitCountOfThree(PlainSubstitute, "cata", "catb", "catc", ByCategory);
    CategoryCata();
    CategoryCatb();
    CategoryCatc();
  }

  lemma CategoryHitsOfNone()
    ensures HitCount(NoSubstitute, CategoryWords, ByCategory) == 0
  {
    HitCountOfThree(NoSubstitute, "cata", "catb", "catc", ByCategory);
    CategoryCata();
    CategoryCatb();
    CategoryCatc();
  }

  lemma CategoryHitsOfUncategorized(p: Product)
    requires p.categories == []
    ensures HitCount(p, CategoryWords, ByCategory) == 0
  {
    HitCountOfThree(p, "cata", "catb", "catc", ByCategory);
  }

  /** A catalog where `b` matches two words, `a` and `c` one each (`c`
      created later) and every other product none ranks `b`, `c`, `a`. */
  lemma NameRankingShape(catalog: seq<Product>, words: seq<string>, a: Product, b: Product, c: Product)
    requires UniqueIds(catalog) && a in catalog && b in catalog && c in catalog && a.id < c.id
    requires HitCount(a, words, ByName) == 1 && HitCount(b, words, ByName) == 2 && HitCount(c, words, ByName) == 1
    requires forall p :: p in catalog && p !in [b, c, a] ==> HitCount(p, words, ByName) == 0
    ensures Rank(catalog, words, ByName) == [b, c, a]
  {
    var r := [b, c, a];
    assert r[0] == b && r[1] == c && r[2] == a;
    assert Outranks(b, c, words, ByName) && Outranks(b, a, words, ByName) && Outranks(c, a, words, ByName);
    RankCharacterized(catalog, words, ByName, r);
  }

  /** The products matching `"gamma+beta"`, best first: `"beta gamma"`
      matches both words, and of the two that match one, the later created
      comes first. */
  lemma NameRanking()
    ensures Rank(TestCatalog, QueryWords, ByName) == [BetaGamma, GammaDelta, AlphaBeta]
  {
    UniqueTestIds();
    AlphaBetaNameHits();
    BetaGammaNameHits();
    GammaDeltaNameHits();
    forall p | p in TestCatalog && p !in [BetaGamma, GammaDelta, AlphaBeta]
      ensures HitCount(p, QueryWords, ByName) == 0
    {
      TestCatalogMembers(p);
      if p.id == 7 {
        UnhealthyNameHits();
      } else {
        SubstituteNameHits(p);
      }
    }
    NameRankingShape(TestCatalog, QueryWords, AlphaBeta, BetaGamma, GammaDelta);
  }

  /** A catalog where `a` and `b` (`a` created later) share three categories
      with the base, `c` two, `d` one and every other product none ranks
      `a`, `b`, `c`, `d`. */
  lemma CategoryRankingShape(catalog: seq<Product>, words: seq<string>, a: Product, b: Product, c: Product, d: Product)
    requires UniqueIds(catalog) && a in catalog && b in catalog && c in catalog && d in catalog && a.id > b.id
    requires HitCount(a, words, ByCategory) == 3 && HitCount(b, words, ByCategory) == 3
    requires HitCount(c, words, ByCategory) == 2 && HitCount(d, words, ByCategory) == 1
    requires forall p :: p in catalog && p !in [a, b, c, d] ==> HitCount(p, words, ByCategory) == 0
    ensures Rank(catalog, words, ByCategory) == [a, b, c, d]
  {
    var r := [a, b, c, d];
    forall i | 0 <= i < |r|
      ensures r[i] in catalog && HitCount(r[i], words, ByCategory) > 0
    {
      if i == 0 {
        assert r[i] == a;
      } else if i == 1 {
        assert r[i] == b;
      } else if i == 2 {
        assert r[i] == c;
      } else {
        assert r[i] == d;
      }
    }
    forall i, j | 0 <= i < j < |r|
      ensures Outranks(r[i], r[j], words, ByCategory)
    {
      if i == 0 {
        assert r[i] == a;
      } else if i == 1 {
        assert r[i] == b;
      } else {
        assert r[i] == c && r[j] == d;
      }
    }
    RankCharacterized(catalog, words, ByCategory, r);
  }

  /** The substitute candidates of `"beta gamma"`, by shared categories. */
  lemma CategoryRanking()
    ensures Rank(TestCatalog, CategoryWords, ByCategory)
            == [UnhealthySubstitute, BetaGamma, BestSubstitute, PlainSubstitute]
  {
    UniqueTestIds();
    CategoryHitsOfThree(UnhealthySubstitute);
    CategoryHitsOfThree(BetaGamma);
    CategoryHitsOfBest();
    CategoryHitsOfPlain();
    forall p | p in TestCatalog && p !in [UnhealthySubstitute, BetaGamma, BestSubstitute, PlainSubstitute]
      ensures HitCount(p, CategoryWords, ByCategory) == 0
    {
      TestCatalogMembers(p);
      if p.id == 6 {
        CategoryHitsOfNone();
      } else {
        CategoryHitsOfUncategorized(p);
      }
    }
    CategoryRankingShape(TestCatalog, CategoryWords, UnhealthySubstitute, BetaGamma, BestSubstitute, PlainSubstitute);
  }

  /** Keeping the products whose grade is below `grade`, from four products
      of which the last two qualify. */
  lemma BetterShape(u: Product, v: Product, x: Product, y: Product, grade: string)
    requires !Less(u.grade, grade) && !Less(v.grade, grade)
    requires Less(x.grade, grade) && Less(y.grade, grade)
    ensures Better([u, v, x, y], grade) == [x, y]
  {
    assert [u, v, x, y][..3] == [u, v, x];
    assert [u, v, x][..2] == [u, v];
    assert [u, v][..1] == [u];
    assert [u][..0] == [];
    assert Better([u], grade) == [];
    assert Better([u, v], grade) == [];
    assert Better([u, v, x], grade) == [x];
  }

  /** Of the candidates, only those graded `"b"` beat the grade `"c"` of
      `"beta gamma"`, and they keep their order. */
  lemma BetterThanBase()
    ensures Better([UnhealthySubstitute, BetaGamma, BestSubstitute, PlainSubstitute], "c")
            == [BestSubstitute, PlainSubstitute]
  {
    assert Less("b", "c") && !Less("c", "c") && !Less("d", "c");
    BetterShape(UnhealthySubstitute, BetaGamma, BestSubstitute, PlainSubstitute, "c");
  }

  /** The page of a search whose name ranking starts with `base`, whose
      category ranking for `base` is `candidates`, and where at most six of
      those beat the grade of `base`. */
  lemma FoundPageShape(catalog: seq<Product>, query: string, visitor: Visitor, words: seq<string>, base: Product,
                       candidates: seq<Product>, kept: seq<Product>)
    requires Split(query, '+') == words
    requires |Rank(catalog, words, ByName)| > 0 && Rank(catalog, words, ByName)[0] == base
    requires Rank(catalog, base.categories, ByCategory) == candidates
    requires Better(candidates, base.grade) == kept && |kept| <= MaxSubstitutes
    ensures SearchPage(catalog, query, visitor)
            == Found(if visitor.authenticated then "ok connect" else "ok", base, kept,
                     if visitor.authenticated then visitor.bookmarks else [])
  {
  }

  /** The page for `"gamma+beta"`: the base product is `"beta gamma"`, and
      the substitutes are `"best substitute"` then `"substitute"`. A
      logged-in visitor also sees their bookmarks. */
  lemma GammaBetaPage(visitor: Visitor)
    ensures SearchPage(TestCatalog, "gamma+beta", visitor)
            == Found(if visitor.authenticated then "ok connect" else "ok", BetaGamma,
                     [BestSubstitute, PlainSubstitute], if visitor.authenticated then visitor.bookmarks else [])
  {
    QueryWordsSplit();
    NameRanking();
    CategoryRanking();
    BetterThanBase();
    FoundPageShape(TestCatalog, "gamma+beta", visitor, QueryWords, BetaGamma,
                   [UnhealthySubstitute, BetaGamma, BestSubstitute, PlainSubstitute],
                   [BestSubstitute, PlainSubstitute]);
  }

  /** No product name contains `"epsilon"`. */
  lemma EpsilonRanking()
    ensures Rank(TestCatalog, ["epsilon"], ByName) == []
  {
    UniqueTestIds();
    NoEpsilonWithoutS();
    NoEpsilonWithoutP();
    forall p | p in TestCatalog
      ensures HitCount(p, ["epsilon"], ByName) == 0
    {
      TestCatalogMembers(p);
      HitCountOfOne(p, "epsilon", ByName);
    }
    RankCharacterized(TestCatalog, ["epsilon"], ByName, []);
  }

  /** The page of a search whose name ranking is empty. */
  lemma NotFoundPageShape(catalog: seq<Product>, query: string, visitor: Visitor, words: seq<string>)
    requires Split(query, '+') == words && Rank(catalog, words, ByName) == []
    ensures SearchPage(catalog, query, visitor) == NotFound
  {
  }

  /** The search for `"epsilon"` fails with status `"error"`. */
  lemma EpsilonPage(visitor: Visitor)
    ensures SearchPage(TestCatalog, "epsilon", visitor) == NotFound
    ensures Status(SearchPage(TestCatalog, "epsilon", visitor)) == "error"
  {
    assert Split("epsilon", '+') == ["epsilon"] by {
      SplitJoin(["epsilon"], '+');
    }
    EpsilonRanking();
    NotFoundPageShape(TestCatalog, "epsilon", visitor, ["epsilon"]);
  }
}
