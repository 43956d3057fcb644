/** The product catalog: the `Product` and `Category` tables of the
    substituter app held in memory, and the two kinds of lookup the search
    makes on them, `Product.objects.filter(<field>__icontains=word)` and
    `Product.objects.get(pk=id)`. */
module Catalog {
  import opened Text

  /** A product row. `categories` holds the names of the categories the
      product is linked to, one entry per link (two linked categories may
      carry the same name). The nutritional fields play no part here. */
  datatype Product = Product(id: int, name: string, grade: string, categories: seq<string>)

  /** The field a lookup matches words against: the product name, or the
      names of the product's categories. */
  datatype Criterion = ByName | ByCategory

  /** Primary keys are unique. */
  predicate UniqueIds(catalog: seq<Product>)
  {
    forall i, j :: 0 <= i < j < |catalog| ==> catalog[i].id != catalog[j].id
  }

  function Ids(catalog: seq<Product>): set<int>
  {
    set p | p in catalog :: p.id
  }

  /** The primary keys of a sequence of rows, in row order. */
  function IdsOf(rows: seq<Product>): (ids: seq<int>)
    ensures |ids| == |rows|
    ensures forall i :: 0 <= i < |rows| ==> ids[i] == rows[i].id
  {
    seq(|rows|, i requires 0 <= i < |rows| => rows[i].id)
  }

  lemma IdsOfAppend(a: seq<Product>, b: seq<Product>)
    ensures IdsOf(a + b) == IdsOf(a) + IdsOf(b)
  {
  }

  /** How many of the category names contain `word`, case-insensitively. */
  function MatchingCategories(names: seq<string>, word: string): (n: nat)
    ensures n <= |names|
    ensures n > 0 <==> exists c :: c in names && IContains(c, word)
  {
    if |names| == 0 then 0
    else
      assert forall c :: c in names ==> c == names[0] || c in names[1..];
      (if IContains(names[0], word) then 1 else 0) + MatchingCategories(names[1..], word)
  }

  /** How many rows the lookup for `word` yields for product `p`. A name
      lookup yields a product at most once; a category lookup is a join on
      the product-category link table without `distinct()`, so it yields the
      product once per linked category whose name contains the word. */
  function RowsFor(p: Product, word: string, criterion: Criterion): (n: nat)
    ensures criterion == ByName ==> (n == 1 <==> IContains(p.name, word)) && n <= 1
    ensures criterion == ByCategory ==>
              (n > 0 <==> exists c :: c in p.categories && IContains(c, word))
  {
    match criterion
    case ByName => if IContains(p.name, word) then 1 else 0
    case ByCategory => MatchingCategories(p.categories, word)
  }

  function Repeat(p: Product, n: nat): (rows: seq<Product>)
    ensures |rows| == n
    ensures forall i :: 0 <= i < n ==> rows[i] == p
  {
    seq(n, _ => p)
  }

  /** `Product.objects.filter(name__icontains=word)` or
      `Product.objects.filter(categories__name__icontains=word)`: every row
      the lookup yields, in catalog order. */
  function Lookup(catalog: seq<Product>, word: string, criterion: Criterion): (rows: seq<Product>)
    ensures forall q :: q in rows ==> q in catalog && RowsFor(q, word, criterion) > 0
    ensures forall q :: q in catalog && RowsFor(q, word, criterion) > 0 ==> q in rows
  {
    if |catalog| == 0 then []
    else
      var head := Repeat(catalog[0], RowsFor(catalog[0], word, criterion));
      var rows := head + Lookup(catalog[1..], word, criterion);
      assert forall q :: q in catalog ==> q == catalog[0] || q in catalog[1..];
      assert RowsFor(catalog[0], word, criterion) > 0 ==> head[0] == catalog[0];
      rows
  }

  /** `Product.objects.get(pk=id)`: the product with primary key `id`. */
  function ProductOf(catalog: seq<Product>, id: int): (p: Product)
    requires id in Ids(catalog)
    ensures p in catalog && p.id == id
  {
    if catalog[0].id == id then catalog[0]
    else
      assert id in Ids(catalog[1..]) by {
        var q :| q in catalog && q.id == id;
        assert q != catalog[0];
        assert q in catalog[1..];
      }
      ProductOf(catalog[1..], id)
  }

  /** With unique keys, the product found by key is the one carrying it. */
  lemma {:induction false} ProductOfUnique(catalog: seq<Product>, p: Product)
    requires UniqueIds(catalog) && p in catalog
    ensures ProductOf(catalog, p.id) == p
  {
    if catalog[0] != p {
      assert p in catalog[1..];
      assert p.id != catalog[0].id by {
        var j :| 0 <= j < |catalog| && catalog[j] == p;
        assert j > 0;
      }
      ProductOfUnique(catalog[1..], p);
    }
  }

  /** Each primary key occurs in a lookup's rows as often as the lookup
      yields its product, and a key of no product never occurs. */
  lemma {:induction false} LookupIdCount(catalog: seq<Product>, word: string, criterion: Criterion, id: int)
    requires UniqueIds(catalog)
    ensures multiset(IdsOf(Lookup(catalog, word, criterion)))[id]
            == if id in Ids(catalog) then RowsFor(ProductOf(catalog, id), word, criterion) else 0
  {
    if |catalog| > 0 {
      var head := Repeat(catalog[0], RowsFor(catalog[0], word, criterion));
      var tail := Lookup(catalog[1..], word, criterion);
      assert Lookup(catalog, word, criterion) == head + tail;
      IdsOfAppend(head, tail);
      assert multiset(IdsOf(head + tail)) == multiset(IdsOf(head)) + multiset(IdsOf(tail));
      LookupIdCount(catalog[1..], word, criterion, id);
      RepeatIdCount(catalog[0], RowsFor(catalog[0], word, criterion), id);
      HeadIds(catalog);
    }
  }

  /** The keys of a catalog are the first row's key and the keys of the
      rest, which with unique keys does not hold the first. */
  lemma HeadIds(catalog: seq<Product>)
    requires |catalog| > 0
    ensures Ids(catalog) == {catalog[0].id} + Ids(catalog[1..])
    ensures UniqueIds(catalog) ==> UniqueIds(catalog[1..]) && catalog[0].id !in Ids(catalog[1..])
  {
    assert forall q :: q in catalog <==> q == catalog[0] || q in catalog[1..];
    if UniqueIds(catalog) {
      forall q | q in catalog[1..]
        ensures q.id != catalog[0].id
      {
        var j :| 0 <= j < |catalog[1..]| && catalog[1..][j] == q;
        assert catalog[j + 1] == q;
      }
    }
  }

  lemma {:induction false} RepeatIdCount(p: Product, n: nat, id: int)
    ensures multiset(IdsOf(Repeat(p, n)))[id] == if p.id == id then n else 0
  {
    if n > 0 {
      assert IdsOf(Repeat(p, n)) == IdsOf(Repeat(p, n - 1)) + [p.id];
      RepeatIdCount(p, n - 1, id);
    }
  }
}
