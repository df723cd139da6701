/** The product page's own pipeline (products.tsx): the fetched products
    are narrowed to a price range and then ordered by the chosen sort.
    Prices are in cents, so the dollar bounds 50, 100 and 200 become 5000,
    10000 and 20000. */
module CatalogView {
  import opened Wrappers
  import opened Schema
  import opened Seqs
  import Storage

  type Listing = Storage.ProductWithCategory

  function PriceOf(p: Listing): Cents {
    EffectivePrice(p.product)
  }

  // ---------------------------------------------------------------------
  // Price range
  // ---------------------------------------------------------------------

  datatype Bucket = Under50 | From50To100 | From100To200 | Over200

  const Fifty: Cents := 5000
  const Hundred: Cents := 10000
  const TwoHundred: Cents := 20000

  /** The range picker's value; the empty choice and any value the page
      does not know select no bucket. */
  function ParseRange(range: string): (b: Option<Bucket>)
    ensures range == "" ==> b.None?
    ensures b.None? <==> range !in {"under-50", "50-100", "100-200", "over-200"}
  {
    if range == "under-50" then Some(Under50)
    else if range == "50-100" then Some(From50To100)
    else if range == "100-200" then Some(From100To200)
    else if range == "over-200" then Some(Over200)
    else None
  }

  /** The half-open price interval each bucket admits. */
  predicate InBucket(b: Bucket, price: Cents) {
    match b
    case Under50 => price < Fifty
    case From50To100 => Fifty <= price < Hundred
    case From100To200 => Hundred <= price < TwoHundred
    case Over200 => price >= TwoHundred
  }

  /** Reference definition: the one bucket a price falls in. */
  function BucketOf(price: Cents): Bucket {
    if price < 5000 then Under50
    else if price < 10000 then From50To100
    else if price < 20000 then From100To200
    else Over200
  }

  /** The buckets do not overlap and leave no price out: every price is in
      exactly one bucket. */
  lemma BucketsPartitionPrices(b: Bucket, price: Cents)
    ensures InBucket(b, price) <==> b == BucketOf(price)
  {
  }

  function InRange(range: string): Listing -> bool {
    (p: Listing) => match ParseRange(range)
      case None => true
      case Some(b) => InBucket(b, PriceOf(p))
  }

  /** The `.filter` step. */
  function FilterByRange(products: seq<Listing>, range: string): (r: seq<Listing>)
    ensures ParseRange(range).Some? ==>
              forall p :: p in r <==> p in products && InBucket(ParseRange(range).value, PriceOf(p))
  {
    Filter(products, InRange(range))
  }

  /** An empty or unrecognised range keeps every product, in order. */
  lemma NoRangeKeepsAll(products: seq<Listing>, range: string)
    requires ParseRange(range).None?
    ensures FilterByRange(products, range) == products
  {
    FilterAll(products, InRange(range));
  }

  /** The filter only deletes products; it never reorders them. */
  lemma FilterByRangeKeepsOrder(products: seq<Listing>, range: string)
    ensures IsSubsequence(FilterByRange(products, range), products)
  {
    FilterIsSubsequence(products, InRange(range));
  }

  // ---------------------------------------------------------------------
  // Sort
  // ---------------------------------------------------------------------

  datatype SortMode = PriceLow | PriceHigh | ByName | Featured

  /** The sort picker's value; anything else, the initial `featured`
      included, keeps the order. */
  function ParseSort(sortBy: string): SortMode {
    if sortBy == "price-low" then PriceLow
    else if sortBy == "price-high" then PriceHigh
    else if sortBy == "name" then ByName
    else Featured
  }

  /** The comparator handed to `.sort`: negative keeps `a` first, positive
      puts `b` first. `nameOrder` stands for `localeCompare`. */
  function Compare(mode: SortMode, nameOrder: (string, string) -> int): (Listing, Listing) -> int {
    (a: Listing, b: Listing) =>
      match mode
      case PriceLow => PriceOf(a) - PriceOf(b)
      case PriceHigh => PriceOf(b) - PriceOf(a)
      case ByName => nameOrder(a.product.name, b.product.name)
      case Featured => 0
  }

  /** What a consistent comparator satisfies: any two values are ordered
      one way or the other, and the order is transitive. */
  ghost predicate TotalPreorder<T(!new)>(cmp: (T, T) -> int) {
    (forall a, b :: cmp(a, b) <= 0 || cmp(b, a) <= 0)
    && (forall a, b, c :: cmp(a, b) <= 0 && cmp(b, c) <= 0 ==> cmp(a, c) <= 0)
  }

  ghost predicate SortedBy<T>(s: seq<T>, cmp: (T, T) -> int) {
    forall i, j :: 0 <= i < j < |s| ==> cmp(s[i], s[j]) <= 0
  }

  /** Places `x` after the trailing run of `sorted` that does not have to
      follow it, so `x` stays behind every element it ties with. */
  function Insert<T>(sorted: seq<T>, x: T, cmp: (T, T) -> int): (r: seq<T>)
    ensures |r| == |sorted| + 1
    ensures multiset(r) == multiset(sorted) + multiset{x}
    decreases |sorted|
  {
    if |sorted| == 0 then [x]
    else
      var init := sorted[..|sorted| - 1];
      var last := sorted[|sorted| - 1];
      assert sorted == init + [last];
      if cmp(last, x) <= 0 then sorted + [x] else Insert(init, x, cmp) + [last]
  }

  /** `Array.prototype.sort` with a comparator: a stable sort, written as
      insertion of each element in turn. */
  function SortBy<T>(s: seq<T>, cmp: (T, T) -> int): (r: seq<T>)
    ensures |r| == |s|
    ensures multiset(r) == multiset(s)
    decreases |s|
  {
    if |s| == 0 then []
    else
      var init := s[..|s| - 1];
      assert s == init + [s[|s| - 1]];
      Insert(SortBy(init, cmp), s[|s| - 1], cmp)
  }

  /** Inserting into a sorted sequence keeps it sorted. */
  lemma {:induction false} InsertSorted<T(!new)>(sorted: seq<T>, x: T, cmp: (T, T) -> int)
    requires TotalPreorder(cmp) && SortedBy(sorted, cmp)
    ensures SortedBy(Insert(sorted, x, cmp), cmp)
    decreases |sorted|
  {
    if |sorted| > 0 {
      var init := sorted[..|sorted| - 1];
      var last := sorted[|sorted| - 1];
      if cmp(last, x) <= 0 {
        var r := sorted + [x];
        forall i, j | 0 <= i < j < |r|
          ensures cmp(r[i], r[j]) <= 0
        {
          if j == |sorted| && i < |sorted| - 1 {
            assert cmp(sorted[i], last) <= 0;
          }
        }
      } else {
        InsertSorted(init, x, cmp);
        var ins := Insert(init, x, cmp);
        var r := ins + [last];
        forall i, j | 0 <= i < j < |r|
          ensures cmp(r[i], r[j]) <= 0
        {
          if j == |ins| {
            assert r[i] in multiset(ins);
            assert r[i] in multiset(init) + multiset{x};
            if r[i] != x {
              assert r[i] in init;
              var k :| 0 <= k < |init| && init[k] == r[i];
              assert cmp(sorted[k], sorted[|sorted| - 1]) <= 0;
            }
          }
        }
      }
    }
  }

  /** Under a consistent comparator the sort's output is in order. */
  lemma {:induction false} SortBySorted<T(!new)>(s: seq<T>, cmp: (T, T) -> int)
    requires TotalPreorder(cmp)
    ensures SortedBy(SortBy(s, cmp), cmp)
    decreases |s|
  {
    if |s| > 0 {
      SortBySorted(s[..|s| - 1], cmp);
      InsertSorted(SortBy(s[..|s| - 1], cmp), s[|s| - 1], cmp);
    }
  }

  /** The elements that tie with `x` under `cmp`. */
  function TiesWith<T>(x: T, cmp: (T, T) -> int): T -> bool {
    (y: T) => cmp(x, y) <= 0 && cmp(y, x) <= 0
  }

  /** One step of insertion past an element outside `y`'s class. */
  lemma InsertPastOne<T(!new)>(init: seq<T>, last: T, y: T, cmp: (T, T) -> int, tie: T -> bool)
    requires cmp(last, y) > 0 && !(tie(y) && tie(last))
    requires Filter(Insert(init, y, cmp), tie) == Filter(init, tie) + Filter([y], tie)
    ensures Filter(Insert(init + [last], y, cmp), tie) == Filter(init + [last], tie) + Filter([y], tie)
  {
    var sorted := init + [last];
    assert sorted[..|sorted| - 1] == init;
    assert Insert(sorted, y, cmp) == Insert(init, y, cmp) + [last];
    FilterAppend(Insert(init, y, cmp), [last], tie);
    FilterAppend(init, [last], tie);
    FilterSingleton(y, tie);
    FilterSingleton(last, tie);
    SwapAroundEmpty(Filter(init, tie), Filter([y], tie), Filter([last], tie));
  }

  lemma SwapAroundEmpty<T>(a: seq<T>, b: seq<T>, c: seq<T>)
    requires b == [] || c == []
    ensures a + b + c == a + c + b
  {
  }

  /** Insertion puts `y` behind every element of its class `tie` when no
      such element has to follow it. */
  lemma {:induction false} InsertBehindClass<T(!new)>(sorted: seq<T>, y: T, cmp: (T, T) -> int, tie: T -> bool)
    requires tie(y) ==> forall z :: z in sorted && tie(z) ==> cmp(z, y) <= 0
    ensures Filter(Insert(sorted, y, cmp), tie) == Filter(sorted, tie) + Filter([y], tie)
    decreases |sorted|
  {
    if |sorted| == 0 {
      assert Insert(sorted, y, cmp) == [] + [y];
    } else {
      var init := sorted[..|sorted| - 1];
      var last := sorted[|sorted| - 1];
      assert sorted == init + [last];
      if cmp(last, y) <= 0 {
        FilterAppend(sorted, [y], tie);
      } else {
        InsertBehindClass(init, y, cmp, tie);
        InsertPastOne(init, last, y, cmp, tie);
      }
    }
  }

  /** Insertion adds `y` behind the elements it ties with. */
  lemma InsertStable<T(!new)>(sorted: seq<T>, y: T, cmp: (T, T) -> int, x: T)
    requires TotalPreorder(cmp)
    ensures Filter(Insert(sorted, y, cmp), TiesWith(x, cmp))
            == Filter(sorted, TiesWith(x, cmp)) + Filter([y], TiesWith(x, cmp))
  {
    var tie := TiesWith(x, cmp);
    forall z | z in sorted && tie(z) && tie(y)
      ensures cmp(z, y) <= 0
    {
      assert cmp(z, x) <= 0 && cmp(x, y) <= 0;
    }
    InsertBehindClass(sorted, y, cmp, tie);
  }

  /** The sort is stable: the elements tying with any `x` come out in the
      order they went in. */
  lemma {:induction false} SortByStable<T(!new)>(s: seq<T>, cmp: (T, T) -> int, x: T)
    requires TotalPreorder(cmp)
    ensures Filter(SortBy(s, cmp), TiesWith(x, cmp)) == Filter(s, TiesWith(x, cmp))
    decreases |s|
  {
    if |s| > 0 {
      var init := s[..|s| - 1];
      assert s == init + [s[|s| - 1]];
      SortByStable(init, cmp, x);
      InsertStable(SortBy(init, cmp), s[|s| - 1], cmp, x);
      FilterAppend(init, [s[|s| - 1]], TiesWith(x, cmp));
    }
  }

  /** A comparator that ties everything leaves the order alone. */
  lemma {:induction false} SortByAllTied<T>(s: seq<T>, cmp: (T, T) -> int)
    requires forall a, b :: cmp(a, b) == 0
    ensures SortBy(s, cmp) == s
    decreases |s|
  {
    if |s| > 0 {
      SortByAllTied(s[..|s| - 1], cmp);
      assert s == s[..|s| - 1] + [s[|s| - 1]];
    }
  }

  // ---------------------------------------------------------------------
  // The pipeline
  // ---------------------------------------------------------------------

  /** `filteredAndSortedProducts`. */
  function FilteredAndSorted(products: seq<Listing>, range: string, sortBy: string, nameOrder: (string, string) -> int): (r: seq<Listing>)
    ensures multiset(r) == multiset(FilterByRange(products, range))
  {
    SortBy(FilterByRange(products, range), Compare(ParseSort(sortBy), nameOrder))
  }

  /** "Showing N results": the count shown is the number of products
      that passed the price filter. */
  lemma ResultCount(products: seq<Listing>, range: string, sortBy: string, nameOrder: (string, string) -> int)
    ensures |FilteredAndSorted(products, range, sortBy, nameOrder)| == |FilterByRange(products, range)|
  {
    assert |multiset(FilteredAndSorted(products, range, sortBy, nameOrder))| == |multiset(FilterByRange(products, range))|;
  }

  /** Every shown product is a fetched product within the chosen bucket,
      and every such product is shown. */
  lemma ShownAreInRange(products: seq<Listing>, range: string, sortBy: string, nameOrder: (string, string) -> int)
    ensures forall p :: p in FilteredAndSorted(products, range, sortBy, nameOrder) <==> p in products && InRange(range)(p)
  {
    var r := FilteredAndSorted(products, range, sortBy, nameOrder);
    var f := FilterByRange(products, range);
    forall p
      ensures p in r <==> p in f
    {
      assert p in r <==> p in multiset(r);
      assert p in f <==> p in multiset(f);
    }
  }

  /** `price-low` lists effective prices from low to high. */
  lemma PriceLowAscending(products: seq<Listing>, range: string, nameOrder: (string, string) -> int)
    ensures var r := FilteredAndSorted(products, range, "price-low", nameOrder);
            forall i, j :: 0 <= i < j < |r| ==> PriceOf(r[i]) <= PriceOf(r[j])
  {
    SortBySorted(FilterByRange(products, range), Compare(PriceLow, nameOrder));
  }

  /** `price-high` lists effective prices from high to low. */
  lemma PriceHighDescending(products: seq<Listing>, range: string, nameOrder: (string, string) -> int)
    ensures var r := FilteredAndSorted(products, range, "price-high", nameOrder);
            forall i, j :: 0 <= i < j < |r| ==> PriceOf(r[i]) >= PriceOf(r[j])
  {
    SortBySorted(FilterByRange(products, range), Compare(PriceHigh, nameOrder));
  }

  /** A consistent collation makes a consistent name comparator. */
  lemma NameCompareConsistent(nameOrder: (string, string) -> int)
    requires TotalPreorder(nameOrder)
    ensures TotalPreorder(Compare(ByName, nameOrder))
  {
    var cmp := Compare(ByName, nameOrder);
    forall a: Listing, b: Listing
      ensures cmp(a, b) <= 0 || cmp(b, a) <= 0
    {
      assert cmp(a, b) == nameOrder(a.product.name, b.product.name);
      assert cmp(b, a) == nameOrder(b.product.name, a.product.name);
    }
    forall a: Listing, b: Listing, c: Listing | cmp(a, b) <= 0 && cmp(b, c) <= 0
      ensures cmp(a, c) <= 0
    {
      assert cmp(a, b) == nameOrder(a.product.name, b.product.name);
      assert cmp(b, c) == nameOrder(b.product.name, c.product.name);
      assert cmp(a, c) == nameOrder(a.product.name, c.product.name);
    }
  }

  /** `name` lists names in the collation's order, provided the collation
      is itself consistent. */
  lemma NameAscending(products: seq<Listing>, range: string, nameOrder: (string, string) -> int)
    requires TotalPreorder(nameOrder)
    ensures var r := FilteredAndSorted(products, range, "name", nameOrder);
            forall i, j :: 0 <= i < j < |r| ==> nameOrder(r[i].product.name, r[j].product.name) <= 0
  {
    NameCompareConsistent(nameOrder);
    SortBySorted(FilterByRange(products, range), Compare(ByName, nameOrder));
  }

  /** Under a price sort, products of the same effective price keep the
      order they were fetched in. */
  lemma PriceSortKeepsTiesInOrder(products: seq<Listing>, range: string, sortBy: string, nameOrder: (string, string) -> int, x: Listing)
    requires ParseSort(sortBy) in {PriceLow, PriceHigh}
    ensures var cmp := Compare(ParseSort(sortBy), nameOrder);
            Filter(FilteredAndSorted(products, range, sortBy, nameOrder), TiesWith(x, cmp))
            == Filter(FilterByRange(products, range), TiesWith(x, cmp))
  {
    SortByStable(FilterByRange(products, range), Compare(ParseSort(sortBy), nameOrder), x);
  }

  /** Any other sort value keeps the filtered order. */
  lemma FeaturedKeepsOrder(products: seq<Listing>, range: string, sortBy: string, nameOrder: (string, string) -> int)
    requires ParseSort(sortBy) == Featured
    ensures FilteredAndSorted(products, range, sortBy, nameOrder) == FilterByRange(products, range)
  {
    SortByAllTied(FilterByRange(products, range), Compare(Featured, nameOrder));
  }
}
