/**
 * The read-only endpoints of controller/RecipeController.java: statistics,
 * the category listing, search and export. Each is a stream pipeline over
 * the rows findAll returns, so each is a function of those rows.
 */
module RecipeQueries {
  import opened Wrappers
  import opened JavaText
  import opened RecipeModel
  import opened RecipeRepository
  import opened CategoryValidation

  // ---------------------------------------------------------------------
  // getRecipeStats

  /** Counting one recipe's categories into a running groupingBy/counting() map. */
  function Tally(counts: map<string, nat>, categories: set<string>): map<string, nat> {
    map c | c in counts.Keys + categories ::
      (if c in counts then counts[c] else 0) + (if c in categories then 1 else 0)
  }

  /** flatMap over every recipe's categories, grouped by category and counted. */
  function CategoryCounts(rows: seq<RecipeRow>): map<string, nat> {
    if rows == [] then map[] else Tally(CategoryCounts(rows[1..]), rows[0].categories)
  }

  /**
   * The grouped counts agree with findByCategory: a category is a key exactly
   * when some recipe carries it, and its count is the number of such recipes.
   */
  lemma {:induction false} CategoryCountsMatchFindByCategory(rows: seq<RecipeRow>)
    ensures forall c :: c in CategoryCounts(rows) <==> FindByCategory(rows, c) != []
    ensures forall c :: c in CategoryCounts(rows) ==> CategoryCounts(rows)[c] == |FindByCategory(rows, c)|
  {
    if rows != [] {
      CategoryCountsMatchFindByCategory(rows[1..]);
      forall c
        ensures c in CategoryCounts(rows) <==> FindByCategory(rows, c) != []
        ensures c in CategoryCounts(rows) ==> CategoryCounts(rows)[c] == |FindByCategory(rows, c)|
      {
        assert FindByCategory(rows, c) ==
               (if c in rows[0].categories then [rows[0]] else []) + FindByCategory(rows[1..], c);
      }
    }
  }

  /** The statistics object: totalRecipes, favoriteRecipes and categoryStats. */
  datatype Stats = Stats(totalRecipes: nat, favoriteRecipes: nat, categoryStats: map<string, nat>)

  /** getRecipeStats over the rows of findAll. */
  function RecipeStats(rows: seq<RecipeRow>): (r: Stats)
    ensures r.totalRecipes == |rows| && r.favoriteRecipes <= r.totalRecipes
    ensures forall c :: c in r.categoryStats ==> 1 <= r.categoryStats[c] <= r.totalRecipes
  {
    CategoryCountsMatchFindByCategory(rows);
    Stats(|rows|, |FindByFavoriteTrue(rows)|, CategoryCounts(rows))
  }

  /** The statistics of the store count every stored recipe and every stored favourite. */
  lemma StatsOfStore(store: RecipeStore)
    requires store.Valid()
    ensures RecipeStats(store.FindAll()).totalRecipes == |store.recipes|
    ensures RecipeStats(store.FindAll()).favoriteRecipes ==
            |set k | k in store.recipes && store.recipes[k].favorite|
  {
    store.FindAllIsStore();
    store.FavoriteCount();
  }

  /** The sum of a count map's values: the numerator of averageRecipesPerCategory. */
  ghost function SumValues(m: map<string, nat>): nat
    decreases |m|
  {
    if m == map[] then 0
    else
      assert exists k :: k in m by {
        var k :| k in m.Keys;
      }
      var k :| k in m; m[k] + SumValues(m - {k})
  }

  /** The sum does not depend on which key is taken out first. */
  lemma {:induction false} SumValuesRemove(m: map<string, nat>, k: string)
    requires k in m
    ensures SumValues(m) == m[k] + SumValues(m - {k})
    decreases |m|
  {
    var j :| j in m && SumValues(m) == m[j] + SumValues(m - {j});
    if j != k {
      SumValuesRemove(m - {j}, k);
      SumValuesRemove(m - {k}, j);
      assert m - {j} - {k} == m - {k} - {j};
    }
  }

  /** One more occurrence of `c`. */
  function Bump(counts: map<string, nat>, c: string): map<string, nat> {
    counts[c := (if c in counts then counts[c] else 0) + 1]
  }

  /** One more occurrence adds one to the sum. */
  lemma SumValuesBump(counts: map<string, nat>, c: string)
    ensures SumValues(Bump(counts, c)) == SumValues(counts) + 1
  {
    var bumped := Bump(counts, c);
    SumValuesRemove(bumped, c);
    assert bumped - {c} == counts - {c};
    if c in counts {
      SumValuesRemove(counts, c);
    } else {
      assert counts - {c} == counts;
    }
  }

  /** Counting a set of categories is counting all but one of them, then that one. */
  lemma TallyPeel(counts: map<string, nat>, categories: set<string>, c: string)
    requires c in categories
    ensures Tally(counts, categories) == Bump(Tally(counts, categories - {c}), c)
  {
  }

  /** Counting a set of categories adds its size to the sum. */
  lemma {:induction false} SumValuesTally(counts: map<string, nat>, categories: set<string>)
    ensures SumValues(Tally(counts, categories)) == SumValues(counts) + |categories|
    decreases |categories|
  {
    if categories == {} {
      assert Tally(counts, categories) == counts;
    } else {
      var c :| c in categories;
      SumValuesTally(counts, categories - {c});
      TallyPeel(counts, categories, c);
      SumValuesBump(Tally(counts, categories - {c}), c);
    }
  }

  /** How many category memberships the rows hold in total. */
  function Memberships(rows: seq<RecipeRow>): nat {
    if rows == [] then 0 else |rows[0].categories| + Memberships(rows[1..])
  }

  /**
   * The two inputs of averageRecipesPerCategory: the values of categoryStats
   * sum to the number of category memberships, and there are at most that
   * many distinct categories.
   */
  lemma {:induction false} CategorySumAndCount(rows: seq<RecipeRow>)
    ensures SumValues(CategoryCounts(rows)) == Memberships(rows)
    ensures |CategoryCounts(rows)| <= Memberships(rows)
  {
    if rows != [] {
      CategorySumAndCount(rows[1..]);
      SumValuesTally(CategoryCounts(rows[1..]), rows[0].categories);
      assert CategoryCounts(rows).Keys == CategoryCounts(rows[1..]).Keys + rows[0].categories;
    }
  }

  /** With at most MaxCategories per recipe, there are at most that many memberships per recipe. */
  lemma {:induction false} MembershipsBound(rows: seq<RecipeRow>)
    requires forall i :: 0 <= i < |rows| ==> |rows[i].categories| <= MaxCategories
    ensures Memberships(rows) <= MaxCategories * |rows|
  {
    if rows != [] {
      MembershipsBound(rows[1..]);
    }
  }

  // ---------------------------------------------------------------------
  // getAllCategories

  /** A category with its usage count, as a Map.Entry. */
  type Entry = (string, nat)

  /** Entries in descending order of count. */
  predicate DescendingByCount(entries: seq<Entry>) {
    forall i, j :: 0 <= i < j < |entries| ==> entries[i].1 >= entries[j].1
  }

  /** The head of a descending sequence has the largest count. */
  lemma HeadIsLargest(sorted: seq<Entry>)
    requires DescendingByCount(sorted) && sorted != []
    ensures forall x :: x in sorted ==> x.1 <= sorted[0].1
  {
  }

  /** One step of a stable sort by descending count: `e` goes before the first entry it does not trail. */
  function InsertByCount(e: Entry, sorted: seq<Entry>): (r: seq<Entry>)
    requires DescendingByCount(sorted)
    ensures |r| == |sorted| + 1
    ensures forall x :: x in r <==> x == e || x in sorted
    ensures multiset(r) == multiset(sorted) + multiset{e}
    ensures DescendingByCount(r)
  {
    if sorted == [] || sorted[0].1 <= e.1 then [e] + sorted
    else
      var rest := InsertByCount(e, sorted[1..]);
      assert sorted == [sorted[0]] + sorted[1..];
      HeadIsLargest(sorted);
      assert forall j :: 0 <= j < |rest| ==> rest[j].1 <= sorted[0].1 by {
        forall j | 0 <= j < |rest| ensures rest[j].1 <= sorted[0].1 {
          assert rest[j] in rest;
        }
      }
      [sorted[0]] + rest
  }

  /** sorted(comparingByValue().reversed()): a stable sort by descending count. */
  function SortByCount(entries: seq<Entry>): (r: seq<Entry>)
    ensures forall x :: x in r <==> x in entries
    ensures multiset(r) == multiset(entries)
    ensures DescendingByCount(r)
    ensures |r| == |entries|
  {
    if entries == [] then []
    else
      assert entries == [entries[0]] + entries[1..];
      InsertByCount(entries[0], SortByCount(entries[1..]))
  }

  /** Every element of `s` occurs once. */
  predicate Distinct<T(==)>(s: seq<T>) {
    forall i, j :: 0 <= i < j < |s| ==> s[i] != s[j]
  }

  /** The result of getAllCategories: the sorted entries and the number of categories. */
  datatype CategoryListing = CategoryListing(categories: seq<Entry>, totalCategories: nat)

  /**
   * getAllCategories over the rows of findAll. The entry set of the HashMap is
   * visited in an order Java leaves unspecified; `hashOrder` is that order, and
   * it decides only how entries with equal counts are ordered.
   */
  function AllCategories(rows: seq<RecipeRow>, hashOrder: seq<string>): (r: CategoryListing)
    requires Distinct(hashOrder)
    requires forall c :: c in hashOrder <==> c in CategoryCounts(rows)
    ensures DescendingByCount(r.categories)
    ensures forall e :: e in r.categories <==> e.0 in CategoryCounts(rows) && e.1 == CategoryCounts(rows)[e.0]
    ensures |r.categories| == r.totalCategories == |CategoryCounts(rows)|
  {
    var counts := CategoryCounts(rows);
    EntriesAreCounts(counts, hashOrder);
    CategoryListing(SortByCount(EntriesInOrder(counts, hashOrder)), |counts|)
  }

  /** The entries of `counts` visited in `order`. */
  function EntriesInOrder(counts: map<string, nat>, order: seq<string>): (r: seq<Entry>)
    requires forall c :: c in order ==> c in counts
    ensures |r| == |order|
    ensures forall i :: 0 <= i < |order| ==> r[i] == (order[i], counts[order[i]])
  {
    seq(|order|, i requires 0 <= i < |order| => (order[i], counts[order[i]]))
  }

  /** Visiting every key once lists every entry of the map once. */
  lemma EntriesAreCounts(counts: map<string, nat>, order: seq<string>)
    requires Distinct(order)
    requires forall c :: c in order <==> c in counts
    ensures forall e :: e in EntriesInOrder(counts, order) <==> e.0 in counts && e.1 == counts[e.0]
    ensures |EntriesInOrder(counts, order)| == |counts|
  {
    var entries := EntriesInOrder(counts, order);
    forall e: Entry | e.0 in counts && e.1 == counts[e.0] ensures e in entries {
      var i :| 0 <= i < |order| && order[i] == e.0;
      assert entries[i] == e;
    }
    DistinctCard(order);
    assert counts.Keys == set c | c in order;
  }

  /** A sequence without repeats has as many elements as its set. */
  lemma {:induction false} DistinctCard<T>(s: seq<T>)
    requires Distinct(s)
    ensures |set x | x in s| == |s|
  {
    if s != [] {
      DistinctCard(s[1..]);
      assert (set x | x in s) == {s[0]} + (set x | x in s[1..]);
      assert s[0] !in s[1..];
    }
  }

  // ---------------------------------------------------------------------
  // searchRecipes

  /** A text filter applies when the parameter is present and not blank after trimming. */
  predicate Active(query: Option<string>) {
    query.Some? && !IsBlank(query.value)
  }

  /**
   * The search predicate. Each active text filter matches the lowercased
   * field against the lowercased query as given (untrimmed); the favourite
   * filter is exact; all present filters must hold.
   */
  predicate SearchMatches(row: RecipeRow, title: Option<string>, category: Option<string>,
                          ingredient: Option<string>, favorite: Option<bool>, lower: string -> string)
  {
    && (Active(title) ==> Contains(lower(row.title), lower(title.value)))
    && (Active(category) ==> exists c :: c in row.categories && Contains(lower(c), lower(category.value)))
    && (Active(ingredient) ==> Contains(lower(row.ingredients), lower(ingredient.value)))
    && (favorite.Some? ==> row.favorite == favorite.value)
  }

  /** searchRecipes over the rows of findAll; `lower` is String.toLowerCase. */
  function SearchRecipes(rows: seq<RecipeRow>, title: Option<string>, category: Option<string>,
                         ingredient: Option<string>, favorite: Option<bool>, lower: string -> string)
    : (r: seq<RecipeRow>)
    ensures |r| <= |rows| && IsSubsequence(r, rows)
    ensures forall row :: row in r <==> row in rows && SearchMatches(row, title, category, ingredient, favorite, lower)
  {
    Filter(rows, (row: RecipeRow) => SearchMatches(row, title, category, ingredient, favorite, lower))
  }

  /** Filtering with a predicate that holds everywhere keeps everything. */
  lemma {:induction false} FilterAll<T(!new)>(xs: seq<T>, keep: T -> bool)
    requires forall x :: x in xs ==> keep(x)
    ensures Filter(xs, keep) == xs
  {
    if xs != [] {
      FilterAll(xs[1..], keep);
    }
  }

  /** Two predicates that agree on the elements filter alike. */
  lemma {:induction false} FilterAgree<T(!new)>(xs: seq<T>, p: T -> bool, q: T -> bool)
    requires forall x :: x in xs ==> p(x) == q(x)
    ensures Filter(xs, p) == Filter(xs, q)
  {
    if xs != [] {
      FilterAgree(xs[1..], p, q);
    }
  }

  /** Filtering twice is filtering once by the conjunction. */
  lemma {:induction false} FilterTwice<T(!new)>(xs: seq<T>, p: T -> bool, q: T -> bool, both: T -> bool)
    requires forall x :: both(x) == (p(x) && q(x))
    ensures Filter(Filter(xs, p), q) == Filter(xs, both)
  {
    if xs != [] {
      FilterTwice(xs[1..], p, q, both);
    }
  }

  /** With no active filter, every recipe is returned, in findAll order. */
  lemma SearchWithoutFilters(rows: seq<RecipeRow>, title: Option<string>, category: Option<string>,
                             ingredient: Option<string>, lower: string -> string)
    requires !Active(title) && !Active(category) && !Active(ingredient)
    ensures SearchRecipes(rows, title, category, ingredient, None, lower) == rows
  {
    FilterAll(rows, (row: RecipeRow) => SearchMatches(row, title, category, ingredient, None, lower));
  }

  /** A blank text parameter is the same as an absent one. */
  lemma SearchIgnoresBlankTitle(rows: seq<RecipeRow>, title: string, category: Option<string>,
                                ingredient: Option<string>, favorite: Option<bool>, lower: string -> string)
    requires IsBlank(title)
    ensures SearchRecipes(rows, Some(title), category, ingredient, favorite, lower) ==
            SearchRecipes(rows, None, category, ingredient, favorite, lower)
  {
    FilterAgree(rows, (row: RecipeRow) => SearchMatches(row, Some(title), category, ingredient, favorite, lower),
                      (row: RecipeRow) => SearchMatches(row, None, category, ingredient, favorite, lower));
  }

  /** The filters are ANDed: searching by title, then by the rest, is searching by all of them. */
  lemma SearchIsConjunction(rows: seq<RecipeRow>, title: Option<string>, category: Option<string>,
                            ingredient: Option<string>, favorite: Option<bool>, lower: string -> string)
    ensures SearchRecipes(SearchRecipes(rows, title, None, None, None, lower), None, category, ingredient, favorite, lower) ==
            SearchRecipes(rows, title, category, ingredient, favorite, lower)
  {
    FilterTwice(rows, (row: RecipeRow) => SearchMatches(row, title, None, None, None, lower),
                      (row: RecipeRow) => SearchMatches(row, None, category, ingredient, favorite, lower),
                      (row: RecipeRow) => SearchMatches(row, title, category, ingredient, favorite, lower));
  }

  // ---------------------------------------------------------------------
  // exportRecipeData

  /** One exported recipe: every column except the image path, which becomes hasImage. */
  datatype ExportEntry = ExportEntry(
    id: int,
    title: string,
    ingredients: string,
    instructions: string,
    categories: set<string>,
    favorite: bool,
    reference: Option<string>,
    hasImage: bool)

  /** The map built for one recipe. */
  function ExportOf(row: RecipeRow): ExportEntry {
    ExportEntry(row.id, row.title, row.ingredients, row.instructions, row.categories,
                row.favorite, row.reference, row.imagePath.Some?)
  }

  /** exportRecipeData over the rows of findAll: one entry per recipe, in the same order. */
  function ExportRecipeData(rows: seq<RecipeRow>): (r: seq<ExportEntry>)
    ensures |r| == |rows|
    ensures forall i :: 0 <= i < |rows| ==> r[i] == ExportOf(rows[i])
  {
    seq(|rows|, i requires 0 <= i < |rows| => ExportOf(rows[i]))
  }

  /** The export keeps every column but the image path, of which it keeps only whether there is one. */
  lemma ExportForgetsOnlyImagePath(a: RecipeRow, b: RecipeRow)
    ensures ExportOf(a) == ExportOf(b) <==>
            a.(imagePath := None) == b.(imagePath := None) && (a.imagePath.Some? <==> b.imagePath.Some?)
  {
  }

  /** An entry is exported exactly when it is the export of one of the rows. */
  lemma ExportMembership(rows: seq<RecipeRow>)
    ensures forall e :: e in ExportRecipeData(rows) <==> exists row :: row in rows && e == ExportOf(row)
  {
    var out := ExportRecipeData(rows);
    forall e ensures e in out <==> exists row :: row in rows && e == ExportOf(row) {
      if e in out {
        var i :| 0 <= i < |out| && out[i] == e;
        assert rows[i] in rows;
      }
      if exists row :: row in rows && e == ExportOf(row) {
        var row :| row in rows && e == ExportOf(row);
        var i :| 0 <= i < |rows| && rows[i] == row;
        assert out[i] == e;
      }
    }
  }

  /** Exporting the store lists each stored recipe once, in ascending id order. */
  lemma ExportOfStore(store: RecipeStore)
    requires store.Valid()
    ensures |ExportRecipeData(store.FindAll())| == |store.recipes|
    ensures forall i, j :: 0 <= i < j < |store.FindAll()| ==>
              ExportRecipeData(store.FindAll())[i].id < ExportRecipeData(store.FindAll())[j].id
    ensures forall e :: e in ExportRecipeData(store.FindAll()) <==>
              exists row :: row in store.recipes.Values && e == ExportOf(row)
  {
    store.FindAllIsStore();
    ExportMembership(store.FindAll());
  }
}
