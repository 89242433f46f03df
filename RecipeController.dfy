/**
 * The state-changing request handlers of controller/RecipeController.java:
 * create, update, the two delete endpoints, the favourite toggle and the
 * administrative reset. Each works on the store the way the source does:
 * load an entity, set its fields, touch the upload directory, save.
 */
module RecipeController {
  import opened Wrappers
  import opened JavaText
  import opened RecipeModel
  import opened RecipeRepository
  import opened CategoryValidation
  import opened Web

  /** A submitted multipart file: its client-side name and its size in bytes. */
  datatype Upload = Upload(originalFilename: string, size: nat)

  /** `image != null && !image.isEmpty()`. */
  predicate HasContent(image: Option<Upload>) {
    image.Some? && image.value.size > 0
  }

  /** `System.currentTimeMillis() + "_" + originalFilename`, with the clock reading passed in. */
  function UploadName(millis: nat, originalFilename: string): string {
    DecimalString(millis) + "_" + originalFilename
  }

  /** The imagePath recorded for an uploaded file. */
  function UploadPath(name: string): string {
    "/uploads/" + name
  }

  /**
   * The upload-directory entry `uploadPath.resolve(fileName)` designates:
   * parsing the name as a path drops its trailing '/' characters.
   */
  function ResolvedName(fileName: string): string {
    StripTrailingSlashes(fileName)
  }

  /**
   * The upload, if there is one, lands as a plain file of the upload
   * directory (its client-side name holds no '/' other than trailing ones)
   * under a name not already present.
   */
  predicate FreshUpload(image: Option<Upload>, millis: nat, uploads: set<string>) {
    HasContent(image) ==>
      && '/' !in StripTrailingSlashes(image.value.originalFilename)
      && ResolvedName(UploadName(millis, image.value.originalFilename)) !in uploads
  }

  /** The upload-directory file an imagePath refers to, if there is one. */
  function ImageFile(imagePath: Option<string>): set<string> {
    if imagePath.Some? then {FileName(imagePath.value)} else {}
  }

  const TitleRequired := "タイトルは必須です。"
  const RecipeCreated := "レシピが正常に登録されました。"
  const RecipeUpdated := "レシピが正常に更新されました。"

  /** The flash message of the update handler's catch block. */
  function UpdateFailed(detail: string): string {
    "レシピの更新に失敗しました: " + detail
  }

  /** The message of the exception thrown for an unknown recipe id. */
  function InvalidRecipeId(id: int): string {
    "Invalid recipe ID: " + IntString(id)
  }

  const NewFormView := "redirect:/recipes/new"
  const HomeLoadingView := "redirect:/home?loading=true"

  /** The edit form of recipe `id`. */
  function EditView(id: int): string {
    "redirect:/recipes/edit/" + IntString(id)
  }

  /** The body of a successful reset: how many recipes and image files went. */
  function ResetMessage(recipeCount: nat, imageCount: nat): (r: string)
    ensures Contains(r, DecimalString(recipeCount))
  {
    var prefix := "データリセットが完了しました。削除されたレシピ: ";
    var r := prefix + DecimalString(recipeCount) + "件、画像: " + DecimalString(imageCount) + "件";
    assert r[|prefix|..|prefix| + |DecimalString(recipeCount)|] == DecimalString(recipeCount);
    assert OccursAt(r, DecimalString(recipeCount), |prefix|);
    r
  }

  /** Title and categories pass the two input checks that create and update share. */
  predicate InputAccepted(title: string, categories: Option<seq<Option<string>>>) {
    !IsBlank(title) && |Requested(categories)| <= MaxCategories
  }

  /** What the controller guarantees of every row it writes. */
  predicate RowConsistent(r: RecipeRow) {
    && TitleValid(r)
    && |r.categories| <= MaxCategories
    && forall c :: c in r.categories ==> IsTrimmedNonBlank(c)
  }

  /** Every row of `recipes` is one the controller could have written. */
  ghost predicate AllConsistent(recipes: map<int, RecipeRow>) {
    forall k :: k in recipes ==> RowConsistent(recipes[k])
  }

  /** The store invariant the handlers keep. */
  ghost predicate Consistent(store: RecipeStore)
    reads store
  {
    store.Valid() && AllConsistent(store.recipes)
  }

  /** Writing a consistent row keeps every row consistent. */
  lemma AllConsistentPut(recipes: map<int, RecipeRow>, id: int, row: RecipeRow)
    requires AllConsistent(recipes) && RowConsistent(row)
    ensures AllConsistent(recipes[id := row])
  {
  }

  /** Removing rows keeps every remaining row consistent. */
  lemma AllConsistentRemove(recipes: map<int, RecipeRow>, ids: set<int>)
    requires AllConsistent(recipes)
    ensures AllConsistent(recipes - ids)
  {
  }

  /**
   * Image files follow their recipes: every recorded image names a file that
   * is present, and no two recipes name the same file.
   */
  ghost predicate ImagesOnDisk(recipes: map<int, RecipeRow>, uploads: set<string>) {
    && (forall k :: k in recipes && recipes[k].imagePath.Some? ==> FileName(recipes[k].imagePath.value) in uploads)
    && (forall k1, k2 ::
          (k1 in recipes && k2 in recipes && k1 != k2 &&
           recipes[k1].imagePath.Some? && recipes[k2].imagePath.Some?) ==>
          FileName(recipes[k1].imagePath.value) != FileName(recipes[k2].imagePath.value))
  }

  /** The file names the images of `rows` refer to. */
  function ImageFiles(rows: seq<RecipeRow>): set<string> {
    set i | 0 <= i < |rows| && rows[i].imagePath.Some? :: FileName(rows[i].imagePath.value)
  }

  /** The files of one more row: those of the prefix plus the row's own. */
  lemma ImageFilesSnoc(rows: seq<RecipeRow>, i: int)
    requires 0 <= i < |rows|
    ensures ImageFiles(rows[..i + 1]) == ImageFiles(rows[..i]) + ImageFile(rows[i].imagePath)
  {
    var prefix, longer := rows[..i], rows[..i + 1];
    forall f | f in ImageFiles(longer) ensures f in ImageFiles(prefix) + ImageFile(rows[i].imagePath) {
      var j :| 0 <= j < |longer| && longer[j].imagePath.Some? && FileName(longer[j].imagePath.value) == f;
      if j < i {
        assert longer[j] == prefix[j];
      }
    }
    forall f | f in ImageFiles(prefix) ensures f in ImageFiles(longer) {
      var j :| 0 <= j < |prefix| && prefix[j].imagePath.Some? && FileName(prefix[j].imagePath.value) == f;
      assert longer[j] == prefix[j];
    }
    if rows[i].imagePath.Some? {
      assert longer[i] == rows[i];
    }
  }

  /**
   * Deleting `file` after the files `done`: it existed exactly when it was an
   * original file not yet deleted, and that is when the count of deleted
   * original files grows by one.
   */
  lemma DeletedCountStep(original: set<string>, done: set<string>, file: string)
    ensures (original - done) - {file} == original - (done + {file})
    ensures |original * (done + {file})| ==
            |original * done| + (if file in original - done then 1 else 0)
  {
    if file in original - done {
      assert original * (done + {file}) == (original * done) + {file};
    } else {
      assert original * (done + {file}) == original * done;
    }
  }

  /** One step of the reset loop, over the files of the first `i` rows. */
  lemma DeleteStep(original: set<string>, rows: seq<RecipeRow>, i: int)
    requires 0 <= i < |rows|
    ensures var done := ImageFiles(rows[..i]);
            var file := ImageFile(rows[i].imagePath);
            && (original - done) - file == original - ImageFiles(rows[..i + 1])
            && |original * ImageFiles(rows[..i + 1])| ==
               |original * done| + (if file <= original - done && file != {} then 1 else 0)
  {
    ImageFilesSnoc(rows, i);
    if rows[i].imagePath.Some? {
      DeletedCountStep(original, ImageFiles(rows[..i]), FileName(rows[i].imagePath.value));
    }
  }

  /** A freshly uploaded file's recorded path names the file that was written. */
  lemma UploadPathNamesFile(millis: nat, originalFilename: string)
    requires '/' !in StripTrailingSlashes(originalFilename)
    ensures FileName(UploadPath(UploadName(millis, originalFilename))) == ResolvedName(UploadName(millis, originalFilename))
  {
    var prefix := DecimalString(millis) + "_";
    var tail := StripTrailingSlashes(originalFilename);
    assert UploadName(millis, originalFilename) == prefix + originalFilename;
    StripTrailingSlashesAppend(prefix, originalFilename);
    var name := prefix + tail;
    assert '/' !in name by {
      forall k | 0 <= k < |name| ensures name[k] != '/' {
        if k < |prefix| - 1 {
          assert name[k] == DecimalString(millis)[k];
        } else if k >= |prefix| {
          assert name[k] == tail[k - |prefix|];
        }
      }
    }
    FileNameUnder("/uploads/", prefix + originalFilename);
  }

  /**
   * Upload names from different clock readings never clash: the digits
   * before the first '_' are the clock reading, and the rest is the client's name.
   */
  lemma UploadNameInjective(millis1: nat, name1: string, millis2: nat, name2: string)
    requires UploadName(millis1, name1) == UploadName(millis2, name2)
    ensures millis1 == millis2 && name1 == name2
  {
    var d1, d2 := DecimalString(millis1), DecimalString(millis2);
    var u := UploadName(millis1, name1);
    assert u == d1 + "_" + name1 == d2 + "_" + name2;
    assert u[|d1|] == '_' && u[|d2|] == '_';
    assert forall k :: 0 <= k < |d1| ==> u[k] == d1[k] != '_';
    assert forall k :: 0 <= k < |d2| ==> u[k] == d2[k] != '_';
    assert d1 == u[..|d1|] == d2;
    DecimalStringInjective(millis1, millis2);
    assert name1 == u[|d1| + 1..] == name2;
  }

  /** Writing a row that points at a new file `name`, absent before, keeps images on disk. */
  lemma ImagesAfterNewFile(recipes: map<int, RecipeRow>, uploads: set<string>, id: int, row: RecipeRow, name: string)
    requires ImagesOnDisk(recipes, uploads)
    requires row.imagePath.Some? && FileName(row.imagePath.value) == name && name !in uploads
    ensures ImagesOnDisk(recipes[id := row],
                         (uploads - (if id in recipes then ImageFile(recipes[id].imagePath) else {})) + {name})
  {
    var after := recipes[id := row];
    var gone := if id in recipes then ImageFile(recipes[id].imagePath) else {};
    forall k | k in after && after[k].imagePath.Some?
      ensures FileName(after[k].imagePath.value) in (uploads - gone) + {name}
    {
      if k != id {
        assert after[k] == recipes[k];
        assert FileName(recipes[k].imagePath.value) in uploads;
      }
    }
    forall k1, k2 | k1 in after && k2 in after && k1 != k2 && after[k1].imagePath.Some? && after[k2].imagePath.Some?
      ensures FileName(after[k1].imagePath.value) != FileName(after[k2].imagePath.value)
    {
      if k1 != id && k2 != id {
        assert after[k1] == recipes[k1] && after[k2] == recipes[k2];
      } else if k1 == id {
        assert FileName(recipes[k2].imagePath.value) in uploads;
      } else {
        assert FileName(recipes[k1].imagePath.value) in uploads;
      }
    }
  }

  /** Writing a row without an image, after removing the old row's file, keeps images on disk. */
  lemma ImagesAfterDrop(recipes: map<int, RecipeRow>, uploads: set<string>, id: int, row: RecipeRow)
    requires ImagesOnDisk(recipes, uploads)
    requires row.imagePath.None?
    ensures ImagesOnDisk(recipes[id := row],
                         uploads - (if id in recipes then ImageFile(recipes[id].imagePath) else {}))
  {
  }

  /** Writing a row that keeps the old row's image (or has none) keeps images on disk. */
  lemma ImagesAfterKeep(recipes: map<int, RecipeRow>, uploads: set<string>, id: int, row: RecipeRow)
    requires ImagesOnDisk(recipes, uploads)
    requires row.imagePath.None? || (id in recipes && row.imagePath == recipes[id].imagePath)
    ensures ImagesOnDisk(recipes[id := row], uploads)
  {
    var after := recipes[id := row];
    forall k | k in after && after[k].imagePath.Some?
      ensures FileName(after[k].imagePath.value) in uploads
    {
      if k != id {
        assert after[k] == recipes[k];
      }
    }
    forall k1, k2 | k1 in after && k2 in after && k1 != k2 && after[k1].imagePath.Some? && after[k2].imagePath.Some?
      ensures FileName(after[k1].imagePath.value) != FileName(after[k2].imagePath.value)
    {
      assert k1 in recipes && k2 in recipes;
      assert after[k1].imagePath == recipes[k1].imagePath && after[k2].imagePath == recipes[k2].imagePath;
    }
  }

  /** Adding row `key`, with the image just uploaded (if any), keeps images on disk. */
  lemma ImagesAfterCreate(recipes: map<int, RecipeRow>, uploads: set<string>, key: int, row: RecipeRow,
                          image: Option<Upload>, millis: nat)
    requires ImagesOnDisk(recipes, uploads) && key !in recipes
    requires var name := UploadName(millis, if image.Some? then image.value.originalFilename else "");
             && row.imagePath == (if HasContent(image) then Some(UploadPath(name)) else None)
             && FreshUpload(image, millis, uploads)
    ensures var name := UploadName(millis, if image.Some? then image.value.originalFilename else "");
            ImagesOnDisk(recipes[key := row], uploads + (if HasContent(image) then {ResolvedName(name)} else {}))
  {
    if HasContent(image) {
      var file := ResolvedName(UploadName(millis, image.value.originalFilename));
      UploadPathNamesFile(millis, image.value.originalFilename);
      ImagesAfterNewFile(recipes, uploads, key, row, file);
      assert (uploads - {}) + {file} == uploads + {file};
    } else {
      ImagesAfterKeep(recipes, uploads, key, row);
    }
  }

  /** Rewriting row `id` under the three-way image rule keeps images on disk. */
  lemma ImagesAfterUpdate(recipes: map<int, RecipeRow>, uploads: set<string>, id: int, row: RecipeRow,
                          image: Option<Upload>, deleteCurrentImage: bool, millis: nat)
    requires ImagesOnDisk(recipes, uploads) && id in recipes
    requires var name := UploadName(millis, if image.Some? then image.value.originalFilename else "");
             && row.imagePath == (if HasContent(image) then Some(UploadPath(name))
                                  else if deleteCurrentImage then None else recipes[id].imagePath)
             && FreshUpload(image, millis, uploads)
    ensures var name := UploadName(millis, if image.Some? then image.value.originalFilename else "");
            var current := ImageFile(recipes[id].imagePath);
            ImagesOnDisk(recipes[id := row],
                         if HasContent(image) then (uploads - current) + {ResolvedName(name)}
                         else if deleteCurrentImage then uploads - current
                         else uploads)
  {
    if HasContent(image) {
      var file := ResolvedName(UploadName(millis, image.value.originalFilename));
      UploadPathNamesFile(millis, image.value.originalFilename);
      ImagesAfterNewFile(recipes, uploads, id, row, file);
    } else if deleteCurrentImage {
      ImagesAfterDrop(recipes, uploads, id, row);
    } else {
      ImagesAfterKeep(recipes, uploads, id, row);
    }
  }

  /** Removing a row together with its file keeps images on disk. */
  lemma ImagesAfterRemove(recipes: map<int, RecipeRow>, uploads: set<string>, id: int)
    requires ImagesOnDisk(recipes, uploads)
    ensures ImagesOnDisk(recipes - {id},
                         uploads - (if id in recipes then ImageFile(recipes[id].imagePath) else {}))
  {
  }

  /** The table with the favourite flag of recipe `id` negated and every other column and row as it was. */
  function Toggled(recipes: map<int, RecipeRow>, id: int): (r: map<int, RecipeRow>)
    requires id in recipes
    ensures r.Keys == recipes.Keys && r[id].favorite == !recipes[id].favorite
    ensures r[id].(favorite := recipes[id].favorite) == recipes[id]
    ensures forall k :: k in recipes && k != id ==> r[k] == recipes[k]
  {
    recipes[id := recipes[id].(favorite := !recipes[id].favorite)]
  }

  /** Toggling twice restores the table: the toggle is plain negation. */
  lemma ToggleTwiceRestores(recipes: map<int, RecipeRow>, id: int)
    requires id in recipes
    ensures Toggled(Toggled(recipes, id), id) == recipes
  {
    var twice := Toggled(Toggled(recipes, id), id);
    assert forall k :: k in recipes ==> twice[k] == recipes[k];
  }

  class RecipeController {
    const store: RecipeStore

    constructor (store: RecipeStore)
      ensures this.store == store
    {
      this.store := store;
    }

    /**
     * submitRecipe. A blank title, then too many categories, send the user
     * back to the form and write nothing; otherwise exactly one row is added
     * under the next id, and an uploaded non-empty image is stored first.
     */
    method SubmitRecipe(title: string, ingredients: Option<string>, instructions: Option<string>,
                        favorite: bool, reference: Option<string>,
                        categories: Option<seq<Option<string>>>, image: Option<Upload>, millis: nat)
      returns (view: string, flash: Flash)
      requires Consistent(store)
      modifies store
      ensures Consistent(store)
      ensures IsBlank(title) ==>
                view == NewFormView && flash == ErrorFlash(TitleRequired) && unchanged(store)
      ensures !IsBlank(title) && |Requested(categories)| > MaxCategories ==>
                && view == NewFormView
                && flash == ErrorFlash(TooManyCategoriesMessage(|Requested(categories)|))
                && unchanged(store)
      ensures InputAccepted(title, categories) ==>
                && view == HomeLoadingView && flash == SuccessFlash(RecipeCreated)
                && store.nextId == old(store.nextId) + 1
                && var name := UploadName(millis, if image.Some? then image.value.originalFilename else "");
                && store.recipes == old(store.recipes)[old(store.nextId) := RecipeRow(
                     old(store.nextId), Trim(title), ingredients.GetOr(""), instructions.GetOr(""), favorite,
                     reference, Requested(categories), if HasContent(image) then Some(UploadPath(name)) else None)]
                && store.uploads == old(store.uploads) + (if HasContent(image) then {ResolvedName(name)} else {})
      ensures ImagesOnDisk(old(store.recipes), old(store.uploads)) &&
              FreshUpload(image, millis, old(store.uploads)) ==>
              ImagesOnDisk(store.recipes, store.uploads)
    {
      if IsBlank(title) {
        return NewFormView, ErrorFlash(TitleRequired);
      }
      var processed := Dedup(categories);
      var validation := ValidateCategories(processed);
      DedupIrrelevant(categories, processed);
      if !validation.isValid {
        return NewFormView, ErrorFlash(validation.errorMessage.value);
      }
      TrimOfNonBlank(title);
      NormalizedAreClean(if categories.Some? then categories.value else []);
      CreateRecipe(Trim(title), ingredients.GetOr(""), instructions.GetOr(""), favorite, reference,
                   validation.categories, image, millis);
      return HomeLoadingView, SuccessFlash(RecipeCreated);
    }

    /**
     * The accepted branch of submitRecipe: a new Recipe object receives the
     * trimmed title, the other fields and the validated categories, an
     * uploaded non-empty image is written to the upload directory and linked,
     * and the object is saved under the next id.
     */
    method CreateRecipe(title: string, ingredients: string, instructions: string, favorite: bool,
                        reference: Option<string>, categories: set<string>, image: Option<Upload>, millis: nat)
      requires Consistent(store)
      requires IsTrimmedNonBlank(title) && |categories| <= MaxCategories
      requires forall c :: c in categories ==> IsTrimmedNonBlank(c)
      modifies store
      ensures Consistent(store)
      ensures store.nextId == old(store.nextId) + 1
      ensures var name := UploadName(millis, if image.Some? then image.value.originalFilename else "");
              && store.recipes == old(store.recipes)[old(store.nextId) := RecipeRow(
                   old(store.nextId), title, ingredients, instructions, favorite,
                   reference, categories, if HasContent(image) then Some(UploadPath(name)) else None)]
              && store.uploads == old(store.uploads) + (if HasContent(image) then {ResolvedName(name)} else {})
      ensures ImagesOnDisk(old(store.recipes), old(store.uploads)) &&
              FreshUpload(image, millis, old(store.uploads)) ==>
              ImagesOnDisk(store.recipes, store.uploads)
    {
      ghost var name := UploadName(millis, if image.Some? then image.value.originalFilename else "");
      ghost var key := store.nextId;
      ghost var before := store.recipes;
      ghost var filesBefore := store.uploads;

      var recipe := new Recipe();
      recipe.SetDetails(title, ingredients, instructions, favorite, reference);
      recipe.categories := Some(categories);
      if HasContent(image) {
        var fileName := UploadName(millis, image.value.originalFilename);
        store.StoreFile(ResolvedName(fileName));
        recipe.imagePath := Some(UploadPath(fileName));
      }
      ghost var row := RecipeRow(key, title, ingredients, instructions, favorite,
                                 reference, categories, if HasContent(image) then Some(UploadPath(name)) else None);
      assert recipe.Columns(key) == row;
      assert RowConsistent(row) by {
        TrimmedNonBlankIff(title);
      }
      assert recipe.id == None && store.nextId == key && store.recipes == before;

      var id := store.Save(recipe);
      AllConsistentPut(before, key, row);
      if ImagesOnDisk(before, filesBefore) && FreshUpload(image, millis, filesBefore) {
        ImagesAfterCreate(before, filesBefore, key, row, image, millis);
      }
    }

    /**
     * updateRecipe. A blank title, too many categories or an unknown id (in
     * that order) send the user back to the edit form and write nothing.
     * Otherwise only row `id` changes: its fields are overwritten, its
     * categories replaced wholesale, and its image follows the three-way rule
     * (a new image wins, else the delete flag, else nothing happens).
     */
    method UpdateRecipe(id: int, title: string, ingredients: Option<string>, instructions: Option<string>,
                        favorite: bool, reference: Option<string>, categories: Option<seq<Option<string>>>,
                        image: Option<Upload>, deleteCurrentImage: bool, millis: nat)
      returns (view: string, flash: Flash)
      requires Consistent(store)
      modifies store
      ensures Consistent(store)
      ensures !(InputAccepted(title, categories) && id in old(store.recipes)) ==>
                view == EditView(id) && unchanged(store)
      ensures IsBlank(title) ==> flash == ErrorFlash(TitleRequired)
      ensures !IsBlank(title) && |Requested(categories)| > MaxCategories ==>
                flash == ErrorFlash(TooManyCategoriesMessage(|Requested(categories)|))
      ensures InputAccepted(title, categories) && id !in old(store.recipes) ==>
                flash == ErrorFlash(UpdateFailed(InvalidRecipeId(id)))
      ensures InputAccepted(title, categories) && id in old(store.recipes) ==>
                && view == HomeLoadingView && flash == SuccessFlash(RecipeUpdated)
                && store.nextId == old(store.nextId)
                && id in store.recipes
                && store.recipes == old(store.recipes)[id := RecipeRow(
                     id, Trim(title), ingredients.GetOr(""), instructions.GetOr(""), favorite,
                     reference, Requested(categories), store.recipes[id].imagePath)]
      ensures InputAccepted(title, categories) && id in old(store.recipes) && HasContent(image) ==>
                var name := UploadName(millis, image.value.originalFilename);
                && store.recipes[id].imagePath == Some(UploadPath(name))
                && store.uploads == (old(store.uploads) - ImageFile(old(store.recipes)[id].imagePath)) + {ResolvedName(name)}
      ensures InputAccepted(title, categories) && id in old(store.recipes) && !HasContent(image) && deleteCurrentImage ==>
                && store.recipes[id].imagePath == None
                && store.uploads == old(store.uploads) - ImageFile(old(store.recipes)[id].imagePath)
      ensures InputAccepted(title, categories) && id in old(store.recipes) && !HasContent(image) && !deleteCurrentImage ==>
                && store.recipes[id].imagePath == old(store.recipes)[id].imagePath
                && store.uploads == old(store.uploads)
      ensures ImagesOnDisk(old(store.recipes), old(store.uploads)) &&
              FreshUpload(image, millis, old(store.uploads)) ==>
              ImagesOnDisk(store.recipes, store.uploads)
    {
      if IsBlank(title) {
        return EditView(id), ErrorFlash(TitleRequired);
      }
      var processed := Dedup(categories);
      var validation := ValidateCategories(processed);
      DedupIrrelevant(categories, processed);
      if !validation.isValid {
        return EditView(id), ErrorFlash(validation.errorMessage.value);
      }
      if !store.ExistsById(id) {
        return EditView(id), ErrorFlash(UpdateFailed(InvalidRecipeId(id)));
      }
      TrimOfNonBlank(title);
      NormalizedAreClean(if categories.Some? then categories.value else []);
      ApplyUpdate(id, Trim(title), ingredients.GetOr(""), instructions.GetOr(""), favorite, reference,
                  validation.categories, image, deleteCurrentImage, millis);
      return HomeLoadingView, SuccessFlash(RecipeUpdated);
    }

    /**
     * The accepted branch of updateRecipe for a stored id: the loaded object
     * receives the new fields, its category set is cleared and replaced, the
     * image follows the three-way rule, and the object is saved back.
     */
    method ApplyUpdate(id: int, title: string, ingredients: string, instructions: string, favorite: bool,
                       reference: Option<string>, categories: set<string>,
                       image: Option<Upload>, deleteCurrentImage: bool, millis: nat)
      requires Consistent(store) && id in store.recipes
      requires IsTrimmedNonBlank(title) && |categories| <= MaxCategories
      requires forall c :: c in categories ==> IsTrimmedNonBlank(c)
      modifies store
      ensures Consistent(store) && store.nextId == old(store.nextId)
      ensures var current := old(store.recipes)[id].imagePath;
              var name := UploadName(millis, if image.Some? then image.value.originalFilename else "");
              && store.recipes == old(store.recipes)[id := RecipeRow(
                   id, title, ingredients, instructions, favorite, reference, categories,
                   if HasContent(image) then Some(UploadPath(name)) else if deleteCurrentImage then None else current)]
              && store.uploads == if HasContent(image) then (old(store.uploads) - ImageFile(current)) + {ResolvedName(name)}
                                  else if deleteCurrentImage then old(store.uploads) - ImageFile(current)
                                  else old(store.uploads)
      ensures ImagesOnDisk(old(store.recipes), old(store.uploads)) &&
              FreshUpload(image, millis, old(store.uploads)) ==>
              ImagesOnDisk(store.recipes, store.uploads)
    {
      ghost var before := store.recipes;
      ghost var filesBefore := store.uploads;

      var existing := new Recipe.Load(store.recipes[id]);
      existing.SetDetails(title, ingredients, instructions, favorite, reference);
      existing.ClearCategories();
      existing.categories := Some(categories);

      ReplaceImage(existing, image, deleteCurrentImage, millis);

      ghost var row := RecipeRow(id, title, ingredients, instructions, favorite, reference, categories,
                                 existing.imagePath);
      assert existing.Columns(id) == row;
      assert RowConsistent(row) by {
        TrimmedNonBlankIff(title);
      }
      assert existing.id == Some(id) && store.recipes == before;
      var _ := store.Save(existing);
      AllConsistentPut(before, id, row);
      if ImagesOnDisk(before, filesBefore) && FreshUpload(image, millis, filesBefore) {
        ImagesAfterUpdate(before, filesBefore, id, row, image, deleteCurrentImage, millis);
      }
    }

    /**
     * The image block of updateRecipe: a non-empty upload replaces the
     * current file and path; failing that, the delete flag removes both;
     * otherwise nothing changes.
     */
    method ReplaceImage(recipe: Recipe, image: Option<Upload>, deleteCurrentImage: bool, millis: nat)
      modifies store`uploads, recipe`imagePath
      ensures var current := old(recipe.imagePath);
              var name := UploadName(millis, if image.Some? then image.value.originalFilename else "");
              && recipe.imagePath == (if HasContent(image) then Some(UploadPath(name))
                                      else if deleteCurrentImage then None else current)
              && store.uploads == if HasContent(image) then (old(store.uploads) - ImageFile(current)) + {ResolvedName(name)}
                                  else if deleteCurrentImage then old(store.uploads) - ImageFile(current)
                                  else old(store.uploads)
    {
      if HasContent(image) {
        if recipe.imagePath.Some? {
          var _ := store.DeleteIfExists(FileName(recipe.imagePath.value));
        }
        var name := UploadName(millis, image.value.originalFilename);
        store.StoreFile(ResolvedName(name));
        recipe.imagePath := Some(UploadPath(name));
      } else if deleteCurrentImage {
        if recipe.imagePath.Some? {
          var _ := store.DeleteIfExists(FileName(recipe.imagePath.value));
        }
        recipe.imagePath := None;
      }
    }

    /**
     * deleteRecipe (the form POST): removes the row and its image file, then
     * always redirects — to the favourites page when `from` is true, else to
     * the category page when a non-empty category was submitted, else home.
     */
    method DeleteRecipe(id: int, from: Option<bool>, category: Option<string>, urlEncode: string -> string)
      returns (view: string)
      requires Consistent(store)
      modifies store
      ensures Consistent(store) && store.nextId == old(store.nextId)
      ensures store.recipes == old(store.recipes) - {id}
      ensures store.uploads ==
                old(store.uploads) - (if id in old(store.recipes) then ImageFile(old(store.recipes)[id].imagePath) else {})
      ensures from == Some(true) ==> view == "redirect:/recipes/favorites"
      ensures from != Some(true) && category.Some? && |category.value| > 0 ==>
                view == "redirect:/recipes/category/" + urlEncode(category.value)
      ensures from != Some(true) && (category.None? || |category.value| == 0) ==> view == "redirect:/home"
      ensures ImagesOnDisk(old(store.recipes), old(store.uploads)) ==> ImagesOnDisk(store.recipes, store.uploads)
    {
      if id in store.recipes && store.recipes[id].imagePath.Some? {
        var _ := store.DeleteIfExists(FileName(store.recipes[id].imagePath.value));
      }
      ghost var before := store.recipes;
      store.DeleteById(id);
      AllConsistentRemove(before, {id});

      if from == Some(true) {
        return "redirect:/recipes/favorites";
      }
      if category.Some? && |category.value| > 0 {
        return "redirect:/recipes/category/" + urlEncode(category.value);
      }
      return "redirect:/home";
    }

    /**
     * deleteRecipeAjax (the DELETE endpoint): 404 and no change for an unknown
     * id; otherwise 200, after which the row and its image file are gone.
     */
    method DeleteRecipeAjax(id: int) returns (status: int)
      requires Consistent(store)
      modifies store
      ensures Consistent(store)
      ensures id !in old(store.recipes) ==> status == 404 && unchanged(store)
      ensures id in old(store.recipes) ==>
                && status == 200 && id !in store.recipes && store.nextId == old(store.nextId)
                && store.recipes == old(store.recipes) - {id}
                && store.uploads == old(store.uploads) - ImageFile(old(store.recipes)[id].imagePath)
      ensures ImagesOnDisk(old(store.recipes), old(store.uploads)) ==> ImagesOnDisk(store.recipes, store.uploads)
    {
      if !store.ExistsById(id) {
        return 404;
      }
      if store.recipes[id].imagePath.Some? {
        var _ := store.DeleteIfExists(FileName(store.recipes[id].imagePath.value));
      }
      ghost var before := store.recipes;
      store.DeleteById(id);
      AllConsistentRemove(before, {id});
      return 200;
    }

    /**
     * toggleFavorite: the stored flag becomes its negation and the new value
     * is returned. An unknown id raises an exception that the handler catches,
     * so the answer is 500 (not 404) and nothing changes.
     */
    method ToggleFavorite(id: int) returns (response: Response<bool>)
      requires Consistent(store)
      modifies store
      ensures Consistent(store) && store.uploads == old(store.uploads) && store.nextId == old(store.nextId)
      ensures id !in old(store.recipes) ==> response == Response(500, None) && unchanged(store)
      ensures id in old(store.recipes) ==>
                && response == Response(200, Some(!old(store.recipes)[id].favorite))
                && store.recipes == Toggled(old(store.recipes), id)
      ensures ImagesOnDisk(old(store.recipes), old(store.uploads)) ==> ImagesOnDisk(store.recipes, store.uploads)
    {
      if !store.ExistsById(id) {
        return Response(500, None);
      }
      var recipe := new Recipe.Load(store.recipes[id]);
      recipe.favorite := !recipe.favorite;
      ghost var before := store.recipes;
      var _ := store.Save(recipe);
      AllConsistentPut(before, id, recipe.Columns(id));
      return Response(200, Some(recipe.favorite));
    }

    /**
     * The loop of resetAllData: for each row with an image, delete its file if
     * it exists, counting the deletions that found a file.
     */
    method DeleteImageFiles(rows: seq<RecipeRow>) returns (deleted: nat)
      modifies store`uploads
      ensures store.uploads == old(store.uploads) - ImageFiles(rows)
      ensures deleted == |old(store.uploads) * ImageFiles(rows)|
    {
      ghost var before := store.uploads;
      deleted := 0;
      for i := 0 to |rows|
        invariant store.uploads == before - ImageFiles(rows[..i])
        invariant deleted == |before * ImageFiles(rows[..i])|
      {
        DeleteStep(before, rows, i);
        if rows[i].imagePath.Some? {
          var file := FileName(rows[i].imagePath.value);
          assert ImageFile(rows[i].imagePath) == {file};
          var existed := store.DeleteIfExists(file);
          if existed {
            deleted := deleted + 1;
          }
        }
      }
      assert rows[..|rows|] == rows;
    }

    /**
     * resetAllData: tries to delete the image file of every recipe (counting
     * the files that were actually there), then deletes every row, and
     * reports both counts.
     */
    method ResetAllData() returns (response: Response<string>)
      requires Consistent(store)
      modifies store
      ensures Consistent(store) && store.recipes == map[] && store.nextId == old(store.nextId)
      ensures store.uploads == old(store.uploads) - ImageFiles(old(store.FindAll()))
      ensures response == Response(200, Some(ResetMessage(
                |old(store.recipes)|, |old(store.uploads) * ImageFiles(old(store.FindAll()))|)))
      ensures ImagesOnDisk(store.recipes, store.uploads)
    {
      var all := store.FindAll();
      store.FindAllIsStore();
      var deletedImageCount := DeleteImageFiles(all);
      var recipeCount := |all|;
      store.DeleteAll();
      return Response(200, Some(ResetMessage(recipeCount, deletedImageCount)));
    }
  }
}
