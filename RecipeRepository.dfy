/**
 * The recipe repository (repository/RecipeRepository.java) over an abstract
 * in-memory store: the rows keyed by their generated id, and the set of file
 * names present in the upload directory.
 */
module RecipeRepository {
  import opened Wrappers
  import opened JavaText
  import opened RecipeModel

  /** `xs` is `ys` with some elements dropped, the rest kept in order. */
  ghost predicate IsSubsequence<T>(xs: seq<T>, ys: seq<T>) {
    if xs == [] then true
    else if ys == [] then false
    else if xs[0] == ys[0] then IsSubsequence(xs[1..], ys[1..])
    else IsSubsequence(xs, ys[1..])
  }

  /** A stream filter: the elements of `xs` that satisfy `keep`, in their original order. */
  function Filter<T(!new)>(xs: seq<T>, keep: T -> bool): (r: seq<T>)
    ensures |r| <= |xs|
    ensures IsSubsequence(r, xs)
    ensures forall x :: x in r <==> x in xs && keep(x)
  {
    if xs == [] then []
    else if keep(xs[0]) then [xs[0]] + Filter(xs[1..], keep)
    else Filter(xs[1..], keep)
  }

  /** The rows of `m` whose keys lie in [lo, hi), in ascending key order. */
  function InIdOrder(m: map<int, RecipeRow>, lo: int, hi: int): (r: seq<RecipeRow>)
    ensures forall row :: row in r ==> exists k :: lo <= k < hi && k in m && m[k] == row
    ensures forall k :: lo <= k < hi && k in m ==> m[k] in r
    decreases hi - lo
  {
    if lo >= hi then []
    else if lo in m then [m[lo]] + InIdOrder(m, lo + 1, hi)
    else InIdOrder(m, lo + 1, hi)
  }

  /** The keys of `m` in [lo, hi). */
  function KeysIn(m: map<int, RecipeRow>, lo: int, hi: int): set<int> {
    set k | k in m && lo <= k < hi
  }

  /** InIdOrder lists every key in range exactly once. */
  lemma {:induction false} InIdOrderLength(m: map<int, RecipeRow>, lo: int, hi: int)
    ensures |InIdOrder(m, lo, hi)| == |KeysIn(m, lo, hi)|
    decreases hi - lo
  {
    if lo >= hi {
      assert KeysIn(m, lo, hi) == {};
    } else {
      InIdOrderLength(m, lo + 1, hi);
      if lo in m {
        assert KeysIn(m, lo, hi) == {lo} + KeysIn(m, lo + 1, hi);
      } else {
        assert KeysIn(m, lo, hi) == KeysIn(m, lo + 1, hi);
      }
    }
  }

  /** Rows listed in key order carry strictly increasing ids when each row's id is its key. */
  lemma {:induction false} InIdOrderAscending(m: map<int, RecipeRow>, lo: int, hi: int)
    requires forall k :: k in m ==> m[k].id == k
    ensures forall i :: 0 <= i < |InIdOrder(m, lo, hi)| ==> lo <= InIdOrder(m, lo, hi)[i].id < hi
    ensures forall i, j :: 0 <= i < j < |InIdOrder(m, lo, hi)| ==>
              InIdOrder(m, lo, hi)[i].id < InIdOrder(m, lo, hi)[j].id
    decreases hi - lo
  {
    if lo < hi {
      InIdOrderAscending(m, lo + 1, hi);
    }
  }

  /** findByFavoriteTrue over the rows findAll returns. */
  function FindByFavoriteTrue(rows: seq<RecipeRow>): (r: seq<RecipeRow>)
    ensures |r| <= |rows| && IsSubsequence(r, rows)
    ensures forall row :: row in r ==> row.favorite
    ensures forall row :: row in rows && row.favorite ==> row in r
  {
    Filter(rows, (row: RecipeRow) => row.favorite)
  }

  /** The keys in [lo, hi) of the favourite rows of `m`. */
  function FavoriteKeysIn(m: map<int, RecipeRow>, lo: int, hi: int): set<int> {
    set k | k in m && lo <= k < hi && m[k].favorite
  }

  /** The favourite keys from `lo` on: `lo` itself when it is a favourite, then those after it. */
  lemma FavoriteKeysStep(m: map<int, RecipeRow>, lo: int, hi: int)
    requires lo < hi
    ensures FavoriteKeysIn(m, lo, hi) ==
            (if lo in m && m[lo].favorite then {lo} else {}) + FavoriteKeysIn(m, lo + 1, hi)
    ensures lo !in FavoriteKeysIn(m, lo + 1, hi)
  {
  }

  /** The favourites of a list are its head, when that is a favourite, followed by the favourites of its tail. */
  lemma FindByFavoriteTrueCons(row: RecipeRow, rest: seq<RecipeRow>)
    ensures FindByFavoriteTrue([row] + rest) == (if row.favorite then [row] else []) + FindByFavoriteTrue(rest)
  {
    assert ([row] + rest)[1..] == rest;
  }

  /** Listing the rows in key order and keeping the favourites lists each favourite key once. */
  lemma {:induction false} FavoritesInIdOrder(m: map<int, RecipeRow>, lo: int, hi: int)
    ensures |FindByFavoriteTrue(InIdOrder(m, lo, hi))| == |FavoriteKeysIn(m, lo, hi)|
    decreases hi - lo
  {
    if lo >= hi {
      assert FavoriteKeysIn(m, lo, hi) == {};
    } else {
      FavoritesInIdOrder(m, lo + 1, hi);
      FavoriteKeysStep(m, lo, hi);
      var rest := InIdOrder(m, lo + 1, hi);
      if lo in m {
        FindByFavoriteTrueCons(m[lo], rest);
      }
    }
  }

  /** findByCategory: `category MEMBER OF r.categories`, an exact string match. */
  function FindByCategory(rows: seq<RecipeRow>, category: string): (r: seq<RecipeRow>)
    ensures |r| <= |rows| && IsSubsequence(r, rows)
    ensures forall row :: row in r <==> row in rows && category in row.categories
    ensures (forall row :: row in rows ==> category !in row.categories) ==> r == []
  {
    Filter(rows, (row: RecipeRow) => category in row.categories)
  }

  /** The store: recipe rows by id, the upload directory's file names, and the next generated id. */
  class RecipeStore {
    var recipes: map<int, RecipeRow>
    var uploads: set<string>
    var nextId: int

    /** Ids are generated from 1 upward, each row sits under its own id, and no stored title is blank. */
    ghost predicate Valid()
      reads this
    {
      && 1 <= nextId
      && forall k :: k in recipes ==> 1 <= k < nextId && recipes[k].id == k && TitleValid(recipes[k])
    }

    constructor ()
      ensures Valid() && recipes == map[] && uploads == {} && nextId == 1
    {
      recipes, uploads, nextId := map[], {}, 1;
    }

    /** findAll: every row, in ascending id order. */
    function FindAll(): (r: seq<RecipeRow>)
      reads this
      ensures forall row :: row in r ==> row in recipes.Values
      ensures forall k :: k in recipes && 1 <= k < nextId ==> recipes[k] in r
    {
      InIdOrder(recipes, 1, nextId)
    }

    /** findAll returns exactly the stored rows, once each, in ascending id order. */
    lemma FindAllIsStore()
      requires Valid()
      ensures |FindAll()| == |recipes|
      ensures forall row :: row in FindAll() <==> row in recipes.Values
      ensures forall i, j :: 0 <= i < j < |FindAll()| ==> FindAll()[i].id < FindAll()[j].id
    {
      InIdOrderLength(recipes, 1, nextId);
      assert KeysIn(recipes, 1, nextId) == recipes.Keys;
      InIdOrderAscending(recipes, 1, nextId);
      forall row | row in recipes.Values ensures row in FindAll() {
        var k :| k in recipes && recipes[k] == row;
      }
    }

    /** findByFavoriteTrue over the store returns one row per stored favourite. */
    lemma FavoriteCount()
      requires Valid()
      ensures |FindByFavoriteTrue(FindAll())| == |set k | k in recipes && recipes[k].favorite|
    {
      FavoritesInIdOrder(recipes, 1, nextId);
      assert FavoriteKeysIn(recipes, 1, nextId) == set k | k in recipes && recipes[k].favorite;
    }

    /** existsById. */
    predicate ExistsById(id: int)
      reads this
    {
      id in recipes
    }

    /**
     * save: an object without an id is inserted under the next generated id,
     * which it then carries; an object with the id of a stored row replaces that row.
     */
    method Save(recipe: Recipe) returns (id: int)
      requires Valid()
      requires recipe.title.Some? && !IsBlank(recipe.title.value)
      requires recipe.ingredients.Some? && recipe.instructions.Some?
      requires recipe.id.Some? ==> recipe.id.value in recipes
      modifies this, recipe`id
      ensures Valid() && uploads == old(uploads)
      ensures old(recipe.id).None? ==> id == old(nextId) && nextId == old(nextId) + 1
      ensures old(recipe.id).Some? ==> id == old(recipe.id).value && nextId == old(nextId)
      ensures recipe.id == Some(id)
      ensures recipes == old(recipes)[id := old(recipe.Columns(id))]
    {
      if recipe.id.None? {
        id := nextId;
        nextId := nextId + 1;
        recipe.id := Some(id);
      } else {
        id := recipe.id.value;
      }
      recipes := recipes[id := recipe.Columns(id)];
    }

    /** deleteById: the row is gone (deleting an absent id changes nothing). */
    method DeleteById(id: int)
      requires Valid()
      modifies this`recipes
      ensures Valid() && recipes == old(recipes) - {id}
    {
      recipes := recipes - {id};
    }

    /** deleteAll. */
    method DeleteAll()
      requires Valid()
      modifies this`recipes
      ensures Valid() && recipes == map[]
    {
      recipes := map[];
    }

    /** MultipartFile.transferTo into the upload directory (an existing file of that name is overwritten). */
    method StoreFile(name: string)
      modifies this`uploads
      ensures uploads == old(uploads) + {name}
    {
      uploads := uploads + {name};
    }

    /** Files.deleteIfExists on a file of the upload directory; says whether there was one. */
    method DeleteIfExists(name: string) returns (existed: bool)
      modifies this`uploads
      ensures existed == (name in old(uploads))
      ensures uploads == old(uploads) - {name}
    {
      existed := name in uploads;
      uploads := uploads - {name};
    }
  }
}
