/**
 * The Recipe entity (model/Recipe.java): its columns, the defaults a new
 * object starts with, and the three category helpers that change the
 * category set in place.
 */
module RecipeModel {
  import opened Wrappers
  import opened JavaText

  /** One stored recipe row, as the repository holds and returns it. */
  datatype RecipeRow = RecipeRow(
    id: int,
    title: string,
    ingredients: string,
    instructions: string,
    favorite: bool,
    reference: Option<string>,
    categories: set<string>,
    imagePath: Option<string>)

  /** The @NotBlank constraint on the title, checked when a row is persisted. */
  predicate TitleValid(r: RecipeRow) {
    !IsBlank(r.title)
  }

  /** The mutable entity object; a null field is None. */
  class Recipe {
    var id: Option<int>
    var title: Option<string>
    var ingredients: Option<string>
    var instructions: Option<string>
    var favorite: bool
    var reference: Option<string>
    var categories: Option<set<string>>
    var imagePath: Option<string>

    /** `new Recipe()`: not a favourite, an empty category set, no image, no id yet. */
    constructor ()
      ensures id == None && title == None && ingredients == None && instructions == None
      ensures !favorite && reference == None
      ensures categories == Some({}) && imagePath == None
    {
      id, title, ingredients, instructions := None, None, None, None;
      favorite, reference := false, None;
      categories, imagePath := Some({}), None;
    }

    /** The object the repository hands out for a stored row. */
    constructor Load(row: RecipeRow)
      ensures id == Some(row.id) && title == Some(row.title)
      ensures ingredients == Some(row.ingredients) && instructions == Some(row.instructions)
      ensures favorite == row.favorite && reference == row.reference
      ensures categories == Some(row.categories) && imagePath == row.imagePath
    {
      id, title := Some(row.id), Some(row.title);
      ingredients, instructions := Some(row.ingredients), Some(row.instructions);
      favorite, reference := row.favorite, row.reference;
      categories, imagePath := Some(row.categories), row.imagePath;
    }

    /** The fields the object carries into a row; a null category collection persists as an empty one. */
    function Columns(key: int): (r: RecipeRow)
      reads this
      requires title.Some? && ingredients.Some? && instructions.Some?
      ensures r.id == key && Some(r.title) == title && r.favorite == favorite && r.imagePath == imagePath
      ensures Some(r.ingredients) == ingredients && Some(r.instructions) == instructions
      ensures r.reference == reference && r.categories == categories.GetOr({})
    {
      RecipeRow(key, title.value, ingredients.value, instructions.value, favorite,
                reference, categories.GetOr({}), imagePath)
    }

    /**
     * setTitle, setIngredients, setInstructions, setFavorite and setReference,
     * the five setters both the create and the update handler call in a row.
     */
    method SetDetails(newTitle: string, newIngredients: string, newInstructions: string,
                      newFavorite: bool, newReference: Option<string>)
      modifies this`title, this`ingredients, this`instructions, this`favorite, this`reference
      ensures title == Some(newTitle) && ingredients == Some(newIngredients)
      ensures instructions == Some(newInstructions)
      ensures favorite == newFavorite && reference == newReference
    {
      title, ingredients, instructions := Some(newTitle), Some(newIngredients), Some(newInstructions);
      favorite, reference := newFavorite, newReference;
    }

    /**
     * addCategory: a null set is first replaced by an empty one; afterwards the
     * category is a member and every earlier member still is.
     */
    method AddCategory(category: string)
      modifies this`categories
      ensures categories.Some? && category in categories.value
      ensures old(categories).None? ==> categories == Some({category})
      ensures old(categories).Some? ==> categories == Some(old(categories).value + {category})
      ensures old(categories).Some? && category in old(categories).value ==> categories == old(categories)
    {
      if categories.None? {
        categories := Some({});
      }
      ghost var before := categories.value;
      categories := Some(categories.value + {category});
      assert before == {} ==> categories.value == {category};
      assert category in before ==> categories.value == before;
    }

    /** removeCategory: the category is gone, every other member stays, a null set stays null. */
    method RemoveCategory(category: string)
      modifies this`categories
      ensures old(categories).None? ==> categories.None?
      ensures old(categories).Some? ==> categories == Some(old(categories).value - {category})
      ensures categories.Some? ==> category !in categories.value
    {
      if categories.Some? {
        categories := Some(categories.value - {category});
      }
    }

    /** clearCategories: a set becomes empty, a null set stays null. */
    method ClearCategories()
      modifies this`categories
      ensures old(categories).None? ==> categories.None?
      ensures old(categories).Some? ==> categories == Some({})
    {
      if categories.Some? {
        categories := Some({});
      }
    }
  }
}
