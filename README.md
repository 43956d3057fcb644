# Pur Beurre product search and substitutes

This project models the `search` view of the Pur Beurre substituter app
(`pur_beurre_project/substituter/views.py`) and the helper nested in it,
`_get_matching_product`. Given a query such as `gamma+beta`, the view:

1. splits the query on `+`;
2. ranks the products whose name contains one of the words,
   case-insensitively, by how many words they match;
3. takes the first of that ranking as the base product, or renders the
   status `"error"` when nothing matches;
4. ranks the products linked to a category whose name contains one of the
   base product's category names, by how many (category name, linked
   category) matches they collect;
5. keeps those whose nutrition grade is strictly better (smaller as a
   string) than the base product's;
6. shows at most six of them, together with the visitor's bookmarks when
   the visitor is logged in.

The database tables become an in-memory catalog, a `seq<Product>` with
unique primary keys. The two ORM lookups become functions over the catalog:
`name__icontains` and `categories__name__icontains`, the latter a join
that yields a product once per matching category link. The view and the
helper keep their loops. `CollectHits`, `CountRuns`, `FetchProducts`,
`FilterBetter`, `MatchingProducts` and `SearchView` are methods proved
against the functions `Hits`, `RunLengths`, `FetchAll`, `Better`, `Rank` and
`SearchPage`. The Python built-ins `list.sort(reverse=True)` and the stable
`sorted(key=count, reverse=True)` are modelled as pure insertion sorts,
`SortDesc` and `SortByCount`.

Modules, one per file, in dependency order:

- `Text`: splitting on one separator and joining, ASCII case folding,
  substring containment, and Python's `<` on `str`.
- `Catalog`: products, the two lookups, and lookup by primary key.
- `Ranking`: sorting keys, counting runs, and ordering the counts. It works
  on integer keys only.
- `Matcher`: `_get_matching_product`.
- `Search`: `search`.
- `Scenario.dfy` holds two modules:
  - `TestText`: string facts about the test data.
  - `Scenario`: the catalog that `TestViewSearch` builds, and the pages the
    view renders for its queries.

The counting loop and the sort work on keys. What makes the ranking
correct is stated in two places:

- `Ranking.IsRankingOf` is a definition independent of the algorithm: every
  hit key once, with its number of hits, ordered by descending count and
  then by descending key.
- `Ranking.RankingUnique` shows that the algorithm's result is the only
  sequence meeting that definition.

On products, `Matcher.RankCharacterized` proves the same for `Rank`.

Three behaviours of the code are worth noting:

- An empty word, from a leading, trailing or doubled `+`, is contained in
  every name, so it matches every product (`Text.EmptyWordMatches`).
- Among products with equal counts, the larger primary key comes first.
  This is the effect of sorting the keys in descending order before
  counting (views.py:47), followed by a stable sort on the counts
  (views.py:56-58).
- For the query `gamma+beta` on the test catalog, two substitutes are
  shown, "best substitute" then "substitute" (`Scenario.GammaBetaPage`).
  tests.py:143-146 asserts two substitutes with "best substitute" first.
  Given the test data, the second is "substitute": it shares `cata` with
  the base product and has a better grade.

## Model

| member | source | states |
|---|---|---|
| Text.Split | pur_beurre_project/substituter/views.py:63 | `query.split("+")` yields at least one word, and no word holds the separator |
| Text.SplitCount | pur_beurre_project/substituter/views.py:63 | splitting yields exactly one more word than there are `+` in the query, empty words included |
| Text.JoinSplit | pur_beurre_project/substituter/views.py:63 | joining the words back with `+` gives the query again |
| Text.SplitJoin | pur_beurre_project/substituter/views.py:63 | a non-empty list of `+`-free words is recovered by splitting its join |
| Text.ContainsIffOccurs | pur_beurre_project/substituter/views.py:40 | a word is contained in a name exactly when it occurs at some index of it |
| Text.SameLengthContains | pur_beurre_project/substituter/views.py:40 | a word as long as the name is contained in it only when it equals the name |
| Text.Lower | pur_beurre_project/substituter/views.py:40 | the character case folding behind `icontains`: ASCII upper-case letters become lower case and every other character is unchanged; `Text.FoldAt` applies it at each index of a folded string |
| Text.Fold | pur_beurre_project/substituter/views.py:40 | the folded string is as long as the original, and `Text.FoldAt` says its i-th character is `Lower` of the original's i-th character |
| Text.IContains | pur_beurre_project/substituter/views.py:40-42 | `field__icontains=word`: the folded word occurs in the folded field; `Text.ContainsIffOccurs` and `Text.IContainsIgnoresCase` characterize it |
| Text.FoldIdempotent | pur_beurre_project/substituter/views.py:40 | case folding a folded string changes nothing |
| Text.IContainsIgnoresCase | pur_beurre_project/substituter/views.py:40 | `icontains` does not see the case of the name or of the word |
| Text.EmptyWordMatches | pur_beurre_project/substituter/views.py:40 | the empty word is contained in every name |
| Text.Less | pur_beurre_project/substituter/views.py:81 | Python's `<` on `str`: lexicographic on code points, with a proper prefix smaller; `Text.LessIrreflexive`, `Text.LessTransitive` and `Text.LessTotal` prove it a strict total order |
| Text.LessIrreflexive | pur_beurre_project/substituter/views.py:81 | no grade is better than itself |
| Text.LessTransitive | pur_beurre_project/substituter/views.py:81 | the grade comparison `<` on strings is transitive |
| Text.LessTotal | pur_beurre_project/substituter/views.py:81 | of two different grades, one is smaller than the other |
| Catalog.MatchingCategories | pur_beurre_project/substituter/views.py:42 | the count of matching category links is positive exactly when one category name contains the word |
| Catalog.RowsFor | pur_beurre_project/substituter/views.py:40-42 | a name lookup yields a product once exactly when its name contains the word; a category lookup yields it when one of its category names does |
| Catalog.Lookup | pur_beurre_project/substituter/views.py:40-42 | the rows of a lookup are catalog products, and every catalog product the word matches is among them |
| Catalog.ProductOf | pur_beurre_project/substituter/views.py:59 | `Product.objects.get(pk=key)` returns a catalog product that carries the key |
| Catalog.ProductOfUnique | pur_beurre_project/substituter/views.py:59 | with unique keys, looking up a product's key returns that product |
| Catalog.LookupIdCount | pur_beurre_project/substituter/views.py:43-44 | each key occurs in a lookup's rows as often as the lookup yields its product, and no other key occurs |
| Ranking.InsertDesc | pur_beurre_project/substituter/views.py:47 | inserting into a descending list keeps it descending and adds exactly the new key |
| Ranking.SortDesc | pur_beurre_project/substituter/views.py:47 | `results.sort(reverse=True)` gives a descending permutation of the keys |
| Ranking.SortedUnique | pur_beurre_project/substituter/views.py:47 | two descending lists holding the same keys are equal, so the sorted list depends only on the multiset of keys |
| Ranking.LeadingRun | pur_beurre_project/substituter/views.py:50-52 | in a descending list, `results.count(key)` for the first key is the length of its leading run, and every later key is smaller |
| Ranking.RunStep | pur_beurre_project/substituter/views.py:49-52 | one round of the loop emits the pair (first key, its count) and resumes at a strictly smaller key |
| Ranking.RunLengths | pur_beurre_project/substituter/views.py:46-52 | `counted_results`: one (key, run length) pair per run of equal keys, in run order; `Ranking.RunLengthsKeys`, `Ranking.RunLengthsDescending` and `Ranking.RunLengthsCounts` characterize it |
| Ranking.RunLengthsKeys | pur_beurre_project/substituter/views.py:46-52 | a key is counted exactly when it is among the hits |
| Ranking.RunLengthsDescending | pur_beurre_project/substituter/views.py:46-52 | the counted keys are strictly descending, hence pairwise distinct |
| Ranking.RunLengthsCounts | pur_beurre_project/substituter/views.py:46-52 | each pair's count is the number of times its key occurs among the hits |
| Ranking.InsertByCount | pur_beurre_project/substituter/views.py:56-58 | inserting a pair keeps counts non-increasing and adds exactly that pair |
| Ranking.SortByCount | pur_beurre_project/substituter/views.py:56-58 | `sorted(..., key=count, reverse=True)` gives a permutation of the pairs with non-increasing counts |
| Ranking.InsertRankOrdered | pur_beurre_project/substituter/views.py:56-58 | stable insertion of a pair whose key is larger than all others keeps ties in descending key order |
| Ranking.SortByCountRankOrdered | pur_beurre_project/substituter/views.py:56-58 | stably sorting key-descending pairs by count orders them by count, then by descending key |
| Ranking.RankHits | pur_beurre_project/substituter/views.py:46-58 | the ranking on keys: sort, count runs, then stable-sort by count; `Ranking.RankHitsIsRanking` and `Ranking.RankingUnique` show it is the unique ranking of the hits |
| Ranking.RankHitsOrdered | pur_beurre_project/substituter/views.py:46-58 | the ranking is ordered by count, then by descending key |
| Ranking.RankHitsCounts | pur_beurre_project/substituter/views.py:46-58 | every ranked key carries its number of hits |
| Ranking.RankHitsKeys | pur_beurre_project/substituter/views.py:46-58 | a key is ranked exactly when it was hit |
| Ranking.RankHitsIsRanking | pur_beurre_project/substituter/views.py:46-58 | the computed ranking meets the algorithm-independent definition of a ranking |
| Ranking.RankOrderedUnique | pur_beurre_project/substituter/views.py:56-58 | two count-then-key ordered lists with the same members are equal |
| Ranking.RankingUnique | pur_beurre_project/substituter/views.py:46-58 | any list meeting the definition of a ranking of the hits is the computed ranking |
| Ranking.RankHitsOrderFree | pur_beurre_project/substituter/views.py:47-58 | the ranking depends only on the multiset of hit keys, not on their order |
| Matcher.Hits | pur_beurre_project/substituter/views.py:36-44 | `results` after the word loop: the keys of every row of every word's lookup, word by word; `Matcher.HitsCount` gives each key's multiplicity |
| Matcher.AppendIds | pur_beurre_project/substituter/views.py:43-44 | the inner loop appends the keys of all rows, in row order |
| Matcher.CollectHits | pur_beurre_project/substituter/views.py:36-44 | the word loop leaves in `results` the keys of every row of every word's lookup, word by word |
| Matcher.CountRuns | pur_beurre_project/substituter/views.py:46-52 | the counting loop terminates and yields the (key, run length) pairs of the sorted hits |
| Matcher.NextRun | pur_beurre_project/substituter/views.py:50-52 | one iteration reads `key = results[x]` and `results.count(key)`; the count is positive, `x` advances to the start of the next run, and the pairs so far plus those of the rest are the whole count |
| Matcher.CountStep | pur_beurre_project/substituter/views.py:49-52 | `x += results.count(key)` lands on the next run, whose key is strictly smaller |
| Matcher.FetchAll | pur_beurre_project/substituter/views.py:59 | one fetched product per ranked pair, each a catalog product carrying that pair's key |
| Matcher.FetchProducts | pur_beurre_project/substituter/views.py:54-59 | the fetch loop gets the product of each ranked key, in ranking order |
| Matcher.MatchingProducts | pur_beurre_project/substituter/views.py:27-61 | `_get_matching_product(words, criterion)` returns `Rank(catalog, words, criterion)` |
| Matcher.HitsInCatalog | pur_beurre_project/substituter/views.py:36-44 | every collected key is the key of a catalog product |
| Matcher.RankedInCatalog | pur_beurre_project/substituter/views.py:46-59 | every ranked key is that of a catalog product, so `get(pk=...)` always finds one |
| Matcher.HitsCount | pur_beurre_project/substituter/views.py:36-44 | a product's key is collected as many times as the product's hit count over all words |
| Matcher.HitCountPositive | pur_beurre_project/substituter/views.py:36-44 | a product has hits exactly when some word's lookup yields it |
| Matcher.HitCountAppend | pur_beurre_project/substituter/views.py:38-44 | the hit count over two word lists is the sum of the counts over each |
| Matcher.HitCountRemove | pur_beurre_project/substituter/views.py:38-44 | removing one word lowers the hit count by that word's rows |
| Matcher.HitCountOrderFree | pur_beurre_project/substituter/views.py:38-44 | the hit count does not depend on the order of the words |
| Matcher.Rank | pur_beurre_project/substituter/views.py:27-61 | the list `_get_matching_product` returns; `Matcher.RankSpec` and `Matcher.RankCharacterized` show it is exactly the products with hits, ordered by count and then by descending key |
| Matcher.RankCounts | pur_beurre_project/substituter/views.py:27-61 | the i-th returned product has the i-th ranked key, and its hit count is that pair's count |
| Matcher.RankComplete | pur_beurre_project/substituter/views.py:27-61 | every catalog product with a hit is returned |
| Matcher.RankSpec | pur_beurre_project/substituter/views.py:27-61 | the result holds exactly the catalog products with hits, with more hits first and equal counts by descending key |
| Matcher.OutranksAsymmetric | pur_beurre_project/substituter/views.py:56-58 | of two products, at most one outranks the other |
| Matcher.OutranksUnique | pur_beurre_project/substituter/views.py:56-58 | two lists ordered by `Outranks` with the same members are equal |
| Matcher.RankCharacterized | pur_beurre_project/substituter/views.py:27-61 | any list of exactly the hit products, ordered by count and then by key, is the result of `_get_matching_product` |
| Matcher.RankEmptyIff | pur_beurre_project/substituter/views.py:27-61 | the result is empty exactly when no catalog product has a hit |
| Matcher.FirstOutranksAll | pur_beurre_project/substituter/views.py:66 | the first returned product outranks every other catalog product |
| Matcher.RankByCounts | pur_beurre_project/substituter/views.py:27-61 | two searches that give every product the same hit count return the same list |
| Matcher.RankWordOrderFree | pur_beurre_project/substituter/views.py:27-61 | reordering the words does not change the result |
| Search.Take | pur_beurre_project/substituter/views.py:88 | `substitute_list[:6]` is the prefix of length min(6, length) |
| Search.Better | pur_beurre_project/substituter/views.py:78-82 | `substitute_list` before truncation, never longer than the candidates; `Search.BetterMembers` and `Search.BetterOrdered` show it keeps, in order, exactly the candidates of strictly better grade |
| Search.FilterBetter | pur_beurre_project/substituter/views.py:78-82 | the filtering loop keeps, in order, the candidates of strictly better grade |
| Search.SearchPage | pur_beurre_project/substituter/views.py:63-102 | the context `search` renders: when a base is found it is a catalog product and at most six substitutes are shown; the Search lemmas state the rest |
| Search.SearchView | pur_beurre_project/substituter/views.py:63-102 | the view renders the page `SearchPage` describes |
| Search.BetterMembers | pur_beurre_project/substituter/views.py:80-82 | a product is kept exactly when it is a candidate with a strictly smaller grade |
| Search.BetterOrdered | pur_beurre_project/substituter/views.py:78-82 | the kept products stay in ranking order |
| Search.NothingBetterThanEmpty | pur_beurre_project/substituter/views.py:81 | no grade is smaller than the empty grade |
| Search.NoNameMatchIff | pur_beurre_project/substituter/views.py:65-70 | the name ranking is empty exactly when no product name contains any word |
| Search.SearchNotFoundIff | pur_beurre_project/substituter/views.py:63-70 | the search fails exactly when no product name contains any word of the split query |
| Search.SearchContext | pur_beurre_project/substituter/views.py:65-98 | status `"error"` without base when nothing matches; otherwise `"ok connect"` with the bookmarks for a logged-in visitor and `"ok"` with none for a guest |
| Search.BaseIsBestMatch | pur_beurre_project/substituter/views.py:66 | the base product is in the catalog, its name contains a query word, and it outranks every other product by name |
| Search.SubstituteNotBase | pur_beurre_project/substituter/views.py:78-82 | the base product is never among its own substitutes |
| Search.ShownAreBetter | pur_beurre_project/substituter/views.py:72-96 | every shown product is in the catalog, has a strictly better grade, and has a category that contains one of the words |
| Search.SubstitutesAreBetter | pur_beurre_project/substituter/views.py:72-96 | every substitute shares a category match with the base product and has a strictly better grade |
| Search.ShownOrdered | pur_beurre_project/substituter/views.py:78-96 | the shown products are ordered by category hits, then by descending key |
| Search.SubstitutesOrdered | pur_beurre_project/substituter/views.py:76-96 | the substitutes are in category-ranking order |
| Search.TakeComplete | pur_beurre_project/substituter/views.py:88 | a kept product is shown unless six products that outrank it are shown |
| Search.ShownComplete | pur_beurre_project/substituter/views.py:76-96 | a product with a better grade and a matching category is shown unless six products that outrank it are shown |
| Search.SubstitutesComplete | pur_beurre_project/substituter/views.py:72-96 | every qualifying product is a substitute, or six better-ranked substitutes fill the list |
| Search.NoSubstitutesBelowEmptyGrade | pur_beurre_project/substituter/views.py:81 | a base product with an empty grade gets no substitutes |
| Search.SearchWordOrderFree | pur_beurre_project/substituter/views.py:63-66 | queries whose words are the same multiset render the same page |
| Scenario.UniqueTestIds | pur_beurre_project/substituter/tests.py:86-92 | the seven test products have distinct keys |
| Scenario.QueryWordsSplit | pur_beurre_project/substituter/tests.py:118-120 | the query `gamma+beta` splits into `gamma` and `beta` |
| Scenario.NameRanking | pur_beurre_project/substituter/tests.py:115-122 | "beta gamma" (both words) ranks first, then "gamma delta", then "alpha beta" |
| Scenario.CategoryRanking | pur_beurre_project/substituter/tests.py:94-98 | the category ranking for `cata`, `catb`, `catc` leaves out "no substitute" (`catd` only) and orders the others by the number of shared categories |
| Scenario.BetterThanBase | pur_beurre_project/substituter/tests.py:133-146 | against grade `c`, the grade-`d` product and the base are dropped, leaving "best substitute" then "substitute" |
| Scenario.GammaBetaPage | pur_beurre_project/substituter/tests.py:115-158 | the page for `gamma+beta` has base "beta gamma", exactly the two substitutes "best substitute" and "substitute", and the visitor's bookmarks when logged in |
| Scenario.EpsilonRanking | pur_beurre_project/substituter/tests.py:124-131 | no test product's name contains `epsilon` |
| Scenario.EpsilonPage | pur_beurre_project/substituter/tests.py:124-131 | the search for `epsilon` renders the status `"error"` |

## Left out

- The database and the ORM are replaced by an in-memory catalog. SQL `LIKE` collation and Unicode case folding are not modelled; `Text.Fold` lower-cases ASCII letters only.
- Key assignment is not modelled. The test products get the keys 1 to 7 in creation order. The database need not assign exactly these keys, but the ranking lemmas behind the test pages (`Scenario.NameRankingShape`, `Scenario.CategoryRankingShape`) use only the relative order of keys. Any keys increasing in creation order give the same pages.
- URL decoding of the request is not modelled. `query` is the decoded parameter.
- A request without a `query` parameter is not modelled. `request.GET.get("query")` returns `None` there, and the split raises.
- `render` and the templates are not modelled. The model stops at the context dictionary, the `Page`.
- `capture_message` (views.py:100), the report to the error tracker, is not modelled. It is a side effect with no bearing on the page.
- The nutritional float fields, barcode, link, description and image of `Product` are not modelled. No step of the search reads them.
- The bookmarks of a logged-in user are the visitor's `bookmarks` field. How the accounts and bookmarks apps store them is not part of this model.
- The `index`, `detail` and `legal` views are not modelled. They only render a template or fetch one product by key.
- The `update_db` management command is not modelled. It fills the database from the network.
- `Search.SearchView` computes `Split` and `Take` as functions rather than as loops, because Python's `str.split` and list slicing are built-ins.
