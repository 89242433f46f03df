# recipeapp — a Dafny model of the recipe and account logic

recipeapp is a Spring Boot web application for keeping cooking recipes. A recipe has:

- a title, ingredients and instructions;
- a favourite flag and an optional reference URL;
- at most two categories;
- an optional uploaded image, whose file lives in an `uploads` directory.

Users register with a username and a password. On first start the application seeds an `admin` and a `user` account.

This project models the logic of the request handlers over an abstract store:

- **Store.** The recipe table is a `map<int, RecipeRow>` keyed by id. The upload directory is a `set<string>` of file names. The user table is a sequence of rows in insertion order.
- **Category validation.** Null and blank entries are dropped, the rest are trimmed and deduplicated, and at most two are accepted.
- **Recipe handlers.** Create and update, with the three-way image rule (new upload, else the delete flag, else keep). The two delete endpoints, the favourite toggle and the administrative reset.
- **Read-only endpoints.** Statistics, the category listing, search and export.
- **Accounts.** Registration with its ordered checks, the debug listing of users, and the first-run seeding of accounts.

How the source becomes Dafny:

- Entities the handlers mutate become classes whose methods carry `modifies` clauses: `Recipe`, `RecipeStore`, `UserRepository` and the controllers.
- Value records and query pipelines become datatypes and functions: `RecipeRow`, `User`, the statistics and the export.
- The clock (`System.currentTimeMillis()`), the password encoder, `URLEncoder.encode`, `toLowerCase` and the iteration order of a `HashMap` are parameters.

Java behaviour that is modelled exactly, not abstracted:

- `String.trim` cuts characters up to U+0020 from both ends.
- `String.contains` is a substring test.
- `Long.toString` renders the digits.
- `Path.getFileName` takes the last `/` segment of the path. Java's Unix path parsing first drops trailing `/` characters, and so does the model.
- `Path.resolve` of a name ending in `/` designates the entry without those characters, so that is where the upload is written.

The model follows the code in three places where a reader might expect otherwise:

- `toggleFavorite` answers 500, not a not-found status, for an unknown id, because the handler catches the exception.
- A password longer than 100 characters is refused by the entity's `@Size(max = 100)`, not only a short one.
- A form that fails bean validation re-renders the `register` view; it does not redirect.

## Model

| member | source | states |
|---|---|---|
| JavaText.Trim | src/main/java/com/example/recipeapp/controller/RecipeController.java:65-66 | `trim()` never lengthens a string and leaves no character up to U+0020 at either end |
| JavaText.TrimIsSlice | src/main/java/com/example/recipeapp/controller/RecipeController.java:65-66 | `trim()` returns a contiguous piece of its argument, and only such characters are cut on either side |
| JavaText.BlankIffTrimEmpty | src/main/java/com/example/recipeapp/controller/RecipeController.java:109 | `s.trim().isEmpty()` holds exactly when every character of `s` is at most U+0020 |
| JavaText.TrimIdempotent | src/main/java/com/example/recipeapp/controller/RecipeController.java:66 | trimming an already trimmed category changes nothing |
| JavaText.TrimmedNonBlankIff | src/main/java/com/example/recipeapp/controller/RecipeController.java:129 | a string has no space at either end and is non-empty exactly when it is non-blank and its own trim |
| JavaText.TrimOfNonBlank | src/main/java/com/example/recipeapp/controller/RecipeController.java:129 | the trimmed form of a non-blank title is non-blank and trimmed, so the stored title passes `@NotBlank` |
| JavaText.Contains | src/main/java/com/example/recipeapp/controller/RecipeController.java:477-478 | `contains` is true exactly when the needle occurs at some position of the haystack |
| JavaText.DecimalRoundTrip | src/main/java/com/example/recipeapp/controller/RecipeController.java:78 | the decimal rendering of a count reads back as that count |
| JavaText.DecimalStringInjective | src/main/java/com/example/recipeapp/controller/RecipeController.java:78 | different counts render as different text, so a message naming a count pins it down |
| JavaText.StripTrailingSlashes | src/main/java/com/example/recipeapp/controller/RecipeController.java:143 | path parsing drops exactly the trailing `/` characters: the result is a prefix of the name, does not end in `/`, and only `/` characters were cut |
| JavaText.FileName | src/main/java/com/example/recipeapp/controller/RecipeController.java:234 | `getFileName()`: the last `/` segment of the path once its trailing `/` characters are dropped; its properties are stated by FileNameIsLastSegment |
| JavaText.FileNameIsLastSegment | src/main/java/com/example/recipeapp/controller/RecipeController.java:234 | `getFileName()` holds no `/`; it is the suffix after the last `/` of the path without its trailing `/` characters, or all of that path if it has no `/`; only `/` characters were dropped |
| JavaText.FileNameIgnoresTrailingSlash | src/main/java/com/example/recipeapp/controller/RecipeController.java:234 | a trailing `/` does not change the file name of a path |
| JavaText.FileNameUnder | src/main/java/com/example/recipeapp/controller/RecipeController.java:146 | the file name of `dir/` + `name` is `name` without its trailing `/` characters, when that is non-empty and holds no `/` |
| RecipeModel.Recipe.constructor | src/main/java/com/example/recipeapp/model/Recipe.java:14-44 | a new Recipe has no id, title, ingredients, instructions, reference or image; it is not a favourite and has an empty category set |
| RecipeModel.Recipe.Load | src/main/java/com/example/recipeapp/controller/RecipeController.java:212-213 | the entity loaded by `findById` carries every column of the stored row |
| RecipeModel.Recipe.Columns | src/main/java/com/example/recipeapp/model/Recipe.java:14-44 | the row persisted for the entity holds each of its fields under the given id |
| RecipeModel.Recipe.SetDetails | src/main/java/com/example/recipeapp/controller/RecipeController.java:215-219 | the five setters leave exactly the given title, ingredients, instructions, favourite flag and reference |
| RecipeModel.Recipe.AddCategory | src/main/java/com/example/recipeapp/model/Recipe.java:47-52 | a null set becomes `{category}`; otherwise the category is added; adding a present category changes nothing |
| RecipeModel.Recipe.RemoveCategory | src/main/java/com/example/recipeapp/model/Recipe.java:54-58 | a null set stays null; otherwise the category is removed and is absent afterwards |
| RecipeModel.Recipe.ClearCategories | src/main/java/com/example/recipeapp/model/Recipe.java:60-64 | a null set stays null; otherwise the set becomes empty |
| RecipeRepository.FindByFavoriteTrue | src/main/java/com/example/recipeapp/repository/RecipeRepository.java:12 | the result keeps findAll order and holds only favourites and every favourite |
| RecipeRepository.FindByCategory | src/main/java/com/example/recipeapp/repository/RecipeRepository.java:14-15 | the result keeps findAll order, holds a row exactly when its category set contains the exact string, and is empty when no row carries it |
| RecipeRepository.FindByFavoriteTrueCons | src/main/java/com/example/recipeapp/repository/RecipeRepository.java:12 | the favourites of a list are its head, when that is a favourite, followed by the favourites of its tail |
| RecipeRepository.FavoritesInIdOrder | src/main/java/com/example/recipeapp/repository/RecipeRepository.java:12 | listing the rows with ids from `lo` below `hi` in id order and keeping the favourites gives one row per stored favourite in that id range |
| RecipeRepository.RecipeStore.FindAll | src/main/java/com/example/recipeapp/repository/RecipeRepository.java:10 | every row findAll lists is stored, and every stored row is listed |
| RecipeRepository.RecipeStore.FavoriteCount | src/main/java/com/example/recipeapp/repository/RecipeRepository.java:12 | findByFavoriteTrue over the store returns one row per stored recipe flagged favourite |
| RecipeRepository.RecipeStore.ExistsById | src/main/java/com/example/recipeapp/controller/RecipeController.java:311 | `existsById` holds exactly when a row with that id is stored |
| RecipeRepository.RecipeStore.FindAllIsStore | src/main/java/com/example/recipeapp/repository/RecipeRepository.java:10 | findAll lists every stored recipe exactly once, in ascending id order |
| RecipeRepository.RecipeStore.Save | src/main/java/com/example/recipeapp/repository/RecipeRepository.java:10 | a new entity is stored under the next id, an existing one overwrites its row; the entity's id is set; nothing else changes |
| RecipeRepository.RecipeStore.DeleteById | src/main/java/com/example/recipeapp/repository/RecipeRepository.java:10 | exactly the row of that id is removed (no error for an unknown id) |
| RecipeRepository.RecipeStore.DeleteAll | src/main/java/com/example/recipeapp/repository/RecipeRepository.java:10 | the table becomes empty and the uploads stay |
| RecipeRepository.RecipeStore.StoreFile | src/main/java/com/example/recipeapp/controller/RecipeController.java:144 | `transferTo` adds the file to the upload directory |
| RecipeRepository.RecipeStore.DeleteIfExists | src/main/java/com/example/recipeapp/controller/RecipeController.java:525 | `Files.deleteIfExists` removes the file and reports whether it was there |
| CategoryValidation.TooManyCategoriesMessage | src/main/java/com/example/recipeapp/controller/RecipeController.java:78 | the rejection message contains the number of categories actually selected |
| CategoryValidation.NormalizedAreClean | src/main/java/com/example/recipeapp/controller/RecipeController.java:65-66 | every accepted category is non-blank and already trimmed |
| CategoryValidation.NormalizeSnoc | src/main/java/com/example/recipeapp/controller/RecipeController.java:64-68 | each loop step adds the trimmed entry when it is non-null and non-blank, and nothing otherwise |
| CategoryValidation.ValidateCategories | src/main/java/com/example/recipeapp/controller/RecipeController.java:53-86 | a null or empty list gives a valid empty set; otherwise the set of trimmed non-blank entries, valid exactly when it has at most 2 members; a rejection carries the count message |
| CategoryValidation.Dedup | src/main/java/com/example/recipeapp/controller/RecipeController.java:115-119 | the HashSet copy keeps null as null and holds the same entries, each once |
| CategoryValidation.SameEntriesSameCategories | src/main/java/com/example/recipeapp/controller/RecipeController.java:115-121 | normalisation depends only on which entries occur, not on their order or repetition |
| CategoryValidation.DedupIrrelevant | src/main/java/com/example/recipeapp/controller/RecipeController.java:115-121 | the pre-deduplication does not change the validated set |
| CategoryValidation.DuplicateEntriesCollapse | src/main/java/com/example/recipeapp/controller/RecipeController.java:115-121 | `[a, b, a]` is accepted as `{a, b}` |
| CategoryValidation.NormalizeThree | src/main/java/com/example/recipeapp/controller/RecipeController.java:63-68 | three clean entries normalise to the set of the three |
| CategoryValidation.ThreeCategoriesRejected | src/main/java/com/example/recipeapp/controller/RecipeController.java:75-80 | three distinct clean categories exceed the limit of 2 |
| RecipeController.ResetMessage | src/main/java/com/example/recipeapp/controller/RecipeController.java:543 | the reset summary contains the number of recipes removed |
| RecipeController.UploadName | src/main/java/com/example/recipeapp/controller/RecipeController.java:140 | the stored name of an upload: the decimal clock reading, `_`, then the client's file name; UploadNameInjective states what pins it down |
| RecipeController.UploadNameInjective | src/main/java/com/example/recipeapp/controller/RecipeController.java:140 | two uploads get the same name only for the same clock reading and the same client file name |
| RecipeController.ResolvedName | src/main/java/com/example/recipeapp/controller/RecipeController.java:143-144 | the upload-directory entry that `resolve(fileName)` writes: the name without its trailing `/` characters |
| RecipeController.UploadPathNamesFile | src/main/java/com/example/recipeapp/controller/RecipeController.java:140-146 | the imagePath recorded for an upload names the entry that was written, the timestamped name without trailing `/`, when the client's file name has no other `/` |
| RecipeController.ImagesAfterCreate | src/main/java/com/example/recipeapp/controller/RecipeController.java:139-147 | when the upload is fresh (no `/` in the client's name except trailing ones, and its resolved entry not yet present), a created recipe's image file is in the upload directory and no two recipes share an image file |
| RecipeController.ImagesAfterUpdate | src/main/java/com/example/recipeapp/controller/RecipeController.java:227-252 | after each branch of the image rule, with a fresh upload in the replace branch, every image path names a stored file and no two recipes share one |
| RecipeController.ImagesAfterRemove | src/main/java/com/example/recipeapp/controller/RecipeController.java:278-285 | deleting a recipe with its file keeps every remaining image on disk |
| RecipeController.Toggled | src/main/java/com/example/recipeapp/controller/RecipeController.java:355 | the toggle negates the favourite flag of one recipe and changes no other column or row |
| RecipeController.ToggleTwiceRestores | src/main/java/com/example/recipeapp/controller/RecipeController.java:355 | toggling twice restores the table |
| RecipeController.RecipeController.SubmitRecipe | src/main/java/com/example/recipeapp/controller/RecipeController.java:96-162 | a blank title, then too many categories, redirect to the form with their message and leave the store untouched; otherwise exactly one row is added under the next id, holding the trimmed title, defaults of "" for absent texts, the validated categories and the uploaded image if any; the store invariant and the image invariant are kept |
| RecipeController.RecipeController.CreateRecipe | src/main/java/com/example/recipeapp/controller/RecipeController.java:128-161 | the accepted branch of create: one new row with these columns, and the upload added to the directory |
| RecipeController.RecipeController.UpdateRecipe | src/main/java/com/example/recipeapp/controller/RecipeController.java:174-269 | a blank title, too many categories or an unknown id redirect to the edit form with their message and change nothing; otherwise the row is replaced wholesale (categories included) and the image follows the rule new upload, else delete flag, else keep, with the old file deleted when replaced or dropped |
| RecipeController.RecipeController.ApplyUpdate | src/main/java/com/example/recipeapp/controller/RecipeController.java:212-260 | the accepted branch of update: the new row and the new upload directory in each image case |
| RecipeController.RecipeController.ReplaceImage | src/main/java/com/example/recipeapp/controller/RecipeController.java:227-252 | the image block: a new upload replaces the old file and path; otherwise the delete flag drops both; otherwise nothing changes |
| RecipeController.RecipeController.DeleteRecipe | src/main/java/com/example/recipeapp/controller/RecipeController.java:272-304 | the row and its image file are removed; the redirect goes to favourites when `from` is true, else to the encoded category when one is given, else home |
| RecipeController.RecipeController.DeleteRecipeAjax | src/main/java/com/example/recipeapp/controller/RecipeController.java:307-329 | an unknown id answers 404 and changes nothing; a known one answers 200 and removes the row and its image file |
| RecipeController.RecipeController.ToggleFavorite | src/main/java/com/example/recipeapp/controller/RecipeController.java:349-362 | a known id gets its flag negated and the new value is returned with 200; an unknown id answers 500 and changes nothing |
| RecipeController.RecipeController.DeleteImageFiles | src/main/java/com/example/recipeapp/controller/RecipeController.java:521-533 | the files of all images are removed, and the count is the number of them that existed |
| RecipeController.RecipeController.ResetAllData | src/main/java/com/example/recipeapp/controller/RecipeController.java:510-551 | the table becomes empty, the image files are deleted, and the answer reports the number of recipes and of files actually deleted |
| RecipeQueries.Tally | src/main/java/com/example/recipeapp/controller/RecipeController.java:375-380 | one recipe's share of `groupingBy`/`counting`: each of its categories is counted once more; SumValuesTally states its effect on the sum |
| RecipeQueries.CategoryCounts | src/main/java/com/example/recipeapp/controller/RecipeController.java:375-380 | the `groupingBy`/`counting` map over the rows in findAll order; CategoryCountsMatchFindByCategory states its keys and counts |
| RecipeQueries.CategoryCountsMatchFindByCategory | src/main/java/com/example/recipeapp/controller/RecipeController.java:375-380 | a category is counted exactly when some recipe carries it, and its count is the number of recipes findByCategory returns for it |
| RecipeQueries.RecipeStats | src/main/java/com/example/recipeapp/controller/RecipeController.java:369-385 | over any rows, the total is the number of rows, favourites are at most the total, and each category count lies between 1 and the total; StatsOfStore pins the favourite count down for the store |
| RecipeQueries.StatsOfStore | src/main/java/com/example/recipeapp/controller/RecipeController.java:371-384 | over the store, the total is the number of stored recipes and the favourite count is the number of stored recipes flagged favourite |
| RecipeQueries.CategorySumAndCount | src/main/java/com/example/recipeapp/controller/RecipeController.java:386-388 | the per-category counts sum to the number of category memberships, and there are at most that many categories |
| RecipeQueries.MembershipsBound | src/main/java/com/example/recipeapp/controller/RecipeController.java:386-388 | with at most 2 categories per recipe, there are at most twice as many memberships as recipes |
| RecipeQueries.SumValuesTally | src/main/java/com/example/recipeapp/controller/RecipeController.java:375-380 | counting one more recipe adds its number of categories to the sum of the counts |
| RecipeQueries.InsertByCount | src/main/java/com/example/recipeapp/controller/RecipeController.java:444-446 | one insertion keeps the entries descending by count and is a permutation of the input plus the new entry |
| RecipeQueries.SortByCount | src/main/java/com/example/recipeapp/controller/RecipeController.java:444-446 | the sort is a permutation of its input, descending by count |
| RecipeQueries.AllCategories | src/main/java/com/example/recipeapp/controller/RecipeController.java:429-452 | the listing is descending by count, holds exactly each category with its count, and `totalCategories` is the number of distinct categories |
| RecipeQueries.EntriesAreCounts | src/main/java/com/example/recipeapp/controller/RecipeController.java:444 | the entry set visits each category once with its count |
| RecipeQueries.SearchMatches | src/main/java/com/example/recipeapp/controller/RecipeController.java:472-498 | the filter of search: each active filter (a non-blank title, a non-blank category, a non-blank ingredient, a non-null favourite flag) must match; case is folded by the `toLowerCase` parameter |
| RecipeQueries.SearchRecipes | src/main/java/com/example/recipeapp/controller/RecipeController.java:462-500 | the result keeps findAll order and holds a recipe exactly when every active filter matches it |
| RecipeQueries.SearchWithoutFilters | src/main/java/com/example/recipeapp/controller/RecipeController.java:472-498 | with no active filter, search returns every recipe in order |
| RecipeQueries.SearchIgnoresBlankTitle | src/main/java/com/example/recipeapp/controller/RecipeController.java:476 | a blank title query is the same as none |
| RecipeQueries.SearchIsConjunction | src/main/java/com/example/recipeapp/controller/RecipeController.java:472-498 | filtering by title and then by the other filters equals filtering by all at once |
| RecipeQueries.ExportOf | src/main/java/com/example/recipeapp/controller/RecipeController.java:406-416 | the export map of one recipe: every column except the image path, plus `hasImage` for whether there is one |
| RecipeQueries.ExportRecipeData | src/main/java/com/example/recipeapp/controller/RecipeController.java:404-417 | one entry per recipe, in the same order, each the projection of its recipe |
| RecipeQueries.ExportForgetsOnlyImagePath | src/main/java/com/example/recipeapp/controller/RecipeController.java:406-416 | two recipes export alike exactly when they agree on every column except the image path and on whether there is an image |
| RecipeQueries.ExportMembership | src/main/java/com/example/recipeapp/controller/RecipeController.java:406-417 | an entry is exported exactly when it is the projection of some recipe |
| RecipeQueries.ExportOfStore | src/main/java/com/example/recipeapp/controller/RecipeController.java:400-419 | the export of the store has one entry per stored recipe, in ascending id order, and only those |
| RecipeModel.TitleValid | src/main/java/com/example/recipeapp/model/Recipe.java:18-19 | `@NotBlank` on the title |
| UserModel.UsernameValid | src/main/java/com/example/recipeapp/model/User.java:17-20 | `@NotBlank` and `@Size(min = 3, max = 20)` on the username |
| UserModel.PasswordValid | src/main/java/com/example/recipeapp/model/User.java:22-25 | `@NotBlank` and `@Size(min = 6, max = 100)` on the password |
| UserModel.NewUser | src/main/java/com/example/recipeapp/model/User.java:28 | a new User has role ROLE_USER and no id, username or password |
| UserModel.FirstNamed | src/main/java/com/example/recipeapp/controller/UserController.java:57 | `findByUsername` finds a row exactly when one carries the name, and the row it finds carries it |
| UserModel.CountNamedUnique | src/main/java/com/example/recipeapp/model/User.java:17 | under the unique constraint a taken username is carried by exactly one row |
| UserModel.UniqueAppend | src/main/java/com/example/recipeapp/model/User.java:17 | inserting a row under a free username keeps usernames unique |
| UserModel.FirstNamedAppend | src/main/java/com/example/recipeapp/model/User.java:17 | after an insert, a lookup finds the earlier row if there is one, else the new row when it carries the name |
| UserModel.RowWithId | src/main/java/com/example/recipeapp/model/User.java:13-15 | finds the row that carries an id, and finds none only when no row carries it |
| UserModel.SaveEffect | src/main/java/com/example/recipeapp/model/User.java:13-28 | save: refused when a column constraint is broken or another row carries the username; an entity whose id names a stored row is merged onto that row; any other entity is inserted under the next generated id |
| UserModel.SaveKeepsWellFormed | src/main/java/com/example/recipeapp/model/User.java:13-28 | a save that succeeds keeps usernames unique, every row within the column constraints, and ids distinct and below the next generated id |
| UserModel.SaveWithoutIdAppends | src/main/java/com/example/recipeapp/model/User.java:13-28 | an entity without an id is refused exactly when it breaks a column constraint or its username is taken; otherwise it is appended under the next id and every stored row is kept |
| UserModel.UserRepository.FindByUsername | src/main/java/com/example/recipeapp/controller/UserController.java:57 | the lookup over the user table succeeds exactly when the name is taken |
| UserModel.UserRepository.Save | src/main/java/com/example/recipeapp/model/User.java:13-28 | refused exactly when SaveEffect refuses, and then nothing changes; otherwise the table and next id become SaveEffect's (a merge onto the row with the entity's id, else an insert under the next id) and stay well formed; an entity without an id is refused exactly for a broken constraint or a taken username, else appended |
| UserController.UsernameLengthOk | src/main/java/com/example/recipeapp/controller/UserController.java:43-44 | the handler's username check: present, and 3 to 20 characters once trimmed |
| UserController.PasswordLengthOk | src/main/java/com/example/recipeapp/controller/UserController.java:50-51 | the handler's password check: present, and at least 6 characters |
| UserController.PasswordCheckRedundant | src/main/java/com/example/recipeapp/controller/UserController.java:50-54 | after bean validation the handler's password-length check always passes |
| UserController.PaddedShortNamePassesBinding | src/main/java/com/example/recipeapp/controller/UserController.java:43-47 | the username check is reachable: `" ab"` passes bean validation but is rejected once trimmed |
| UserController.TrimmedNameStorable | src/main/java/com/example/recipeapp/controller/UserController.java:65 | a trimmed username of 3 to 20 characters meets the column constraints |
| UserController.UserEntry | src/main/java/com/example/recipeapp/controller/UserController.java:98-101 | the text of one listed user: its id, username and role, each `null` when absent; EntryIsOneLine states its shape |
| UserController.UserLine | src/main/java/com/example/recipeapp/controller/UserController.java:98-101 | one line of the listing: the entry followed by a line break |
| UserController.EntryIsOneLine | src/main/java/com/example/recipeapp/controller/UserController.java:98-101 | each user contributes exactly one line when the username and role hold no line break |
| UserController.ListingLineCount | src/main/java/com/example/recipeapp/controller/UserController.java:94-104 | the listing has the title line plus exactly one line per stored user |
| UserController.UserController.RegisterUser | src/main/java/com/example/recipeapp/controller/UserController.java:31-83 | bean-validation errors re-render the form; then the trimmed-length, password-length and taken-name checks redirect in that order, each with its message and no write; a refused save reports the generic error; otherwise exactly one user is appended with the trimmed name, the encoded password and ROLE_USER, and the call redirects to login; a bound `id` is discarded, so no existing row changes |
| UserController.RegisteredAsWritten | src/main/java/com/example/recipeapp/controller/UserController.java:32-71 | the table after the handler's save as written: the bound form, including any `id`, with the trimmed name, the encoded password and ROLE_USER, given to save |
| UserController.BoundIdOverwritesAccount | src/main/java/com/example/recipeapp/controller/UserController.java:32-71 | as written, a request with `id=1`, `username=mallory`, `password=secret1` passes every check and replaces the seeded admin row with the username mallory, the encoded password and ROLE_USER; `admin` is then no longer taken |
| UserController.UserController.ListUsers | src/main/java/com/example/recipeapp/controller/UserController.java:93-105 | the title line followed by one line per user in findAll order |
| Bootstrap.SeedNamesValid | src/main/java/com/example/recipeapp/RecipeappApplication.java:28-38 | both seeded names meet the username constraints |
| Bootstrap.SeedOne | src/main/java/com/example/recipeapp/RecipeappApplication.java:26-33 | one block of init over the table: unchanged when the name is taken, else one row more with the next id, the name, the password and the role; SeedOneKeeps states its properties |
| Bootstrap.SeedOneKeeps | src/main/java/com/example/recipeapp/RecipeappApplication.java:26-33 | seeding one name keeps the existing rows as a prefix, adds at most one row, and leaves the name taken |
| Bootstrap.Seeded | src/main/java/com/example/recipeapp/RecipeappApplication.java:26-43 | a whole run over the table: `admin` seeded first, then `user` |
| Bootstrap.SeedAccount | src/main/java/com/example/recipeapp/RecipeappApplication.java:26-33 | one block of init: it completes exactly when the name was taken or the password is storable, and then leaves SeedOne's table; otherwise nothing changes |
| Bootstrap.SeededKeepsExisting | src/main/java/com/example/recipeapp/RecipeappApplication.java:26-43 | seeding only appends (at most two rows); every existing row, role included, is unchanged |
| Bootstrap.SeededLookup | src/main/java/com/example/recipeapp/RecipeappApplication.java:26-43 | afterwards `admin` resolves to the old account or a new ROLE_ADMIN one, and `user` to the old one or a new ROLE_USER one |
| Bootstrap.SeededIdempotent | src/main/java/com/example/recipeapp/RecipeappApplication.java:26-43 | a second run writes nothing, whatever the encoder and id counter |
| Bootstrap.SeededExactlyOnce | src/main/java/com/example/recipeapp/RecipeappApplication.java:26-43 | with unique usernames before, they stay unique and `admin` and `user` each occur exactly once |
| Bootstrap.Init | src/main/java/com/example/recipeapp/RecipeappApplication.java:23-48 | when the encoded password is storable the run completes with the seeded table; otherwise the first needed save throws, nothing changes, and the run completes only if both accounts existed |

## Left out

- File-system failures are not modelled: `createDirectories`, `transferTo` and `deleteIfExists` always succeed, and the upload directory is a set of names. This covers the `IOException` that `submitRecipe` lets escape and the failures that the update, delete and reset handlers catch and log.
- RecipeRepository.RecipeStore.Save: the column limits are not modelled, so save never fails. These are the `@Column` lengths and the per-category length of 50. Without a failing save there is no model of the save-failure message of `submitRecipe` (RecipeController.java:154-159), nor of the orphan upload left when that save fails after the file was written.
- RecipeController.RecipeController.UpdateRecipe: the catch block is modelled only for the unknown-id exception, not for I/O or persistence failures.
- RecipeController.RecipeController.DeleteRecipeAjax: the 500 answer comes only from exceptions and is not modelled.
- RecipeController.RecipeController.ResetAllData: the 500 answer with the exception message is not modelled.
- RecipeController.RecipeController.SubmitRecipe: on rejection the form is re-filled through the `recipe` flash attribute and `createRecipeFromParams`; this is view state only.
- RecipeController.RecipeController.SubmitRecipe: the image invariant is proved only for a fresh upload. Its client file name must hold no `/` except trailing ones, and its resolved entry must not already exist. A name with an inner `/` would resolve into a sub-directory, which the flat upload set does not hold, and an existing entry would be shared by two recipes. UpdateRecipe has the same condition.
- RecipeController.RecipeController.DeleteRecipe: `URLEncoder.encode` is a parameter. Its `UnsupportedEncodingException` cannot occur for "UTF-8", so that branch is not modelled.
- RecipeQueries.RecipeStats: `averageRecipesPerCategory` is a `double` and is not computed. Its two inputs are modelled instead, the sum of the counts and the number of categories (CategorySumAndCount).
- The read-only endpoints' 500 answers are not modelled, and neither is `toLowerCase`, which is a parameter of the search. `getRecipeStats` calls `findByFavoriteTrue` as a second query; the model evaluates it over the same rows.
- RecipeRepository.RecipeStore.FindAllIsStore: `findAll` is taken to return rows in ascending id order, which JPA does not promise.
- RecipeQueries.AllCategories: the iteration order of the `HashMap` entry set is a parameter. It decides only how categories with equal counts are ordered.
- `System.getProperty("user.dir")` is not modelled, and the upload directory is a flat set of entry names. Of `Path.resolve`, only the dropping of trailing `/` characters is modelled (ResolvedName). Runs of `/` inside a path are not collapsed.
- JavaText.FileName: for a path made only of `/` characters it returns "", where `getFileName` returns null. No recorded imagePath has that form.
- UserRepository is not part of this model. Its `findByUsername` and `save` are modelled over a sequence of rows with the entity's constraints.
- UserModel.UserRepository.Save: an entity whose id names no stored row is inserted under a fresh id, as Hibernate before 6.6 does; Hibernate 6.6 and later throw instead.
- UserController.UserController.RegisterUser: the model discards a bound `id`, which is the intended behaviour (see Findings); RegisteredAsWritten keeps it. A bound `role` is overwritten with ROLE_USER in any case.
- UserController.UserController.ListUsers: the user table's `findAll` is taken to return rows in insertion order, which JPA does not promise.
- The password encoder is a deterministic function parameter. BCrypt salts each call, so the two seeded accounts would get different hashes; no property here depends on the hash.
- Java string lengths count UTF-16 code units, while the model counts characters. The two differ only for characters outside the Basic Multilingual Plane.
- The view-only handlers are not modelled: `showHome`, `showRecipeForm`, `showEditForm`, `showFavoriteRecipes`, `showRecipesByCategory`, `showRegisterForm` and `showLoginForm`.
- Console logging, the `fileCountMax` system property and its printout (RecipeappApplication.java:16, 46-47), and `main` are not modelled.
- Concurrent requests are not modelled: every handler runs alone.

## Findings

| source | as written | input that shows it | evidently intended | confidence | as-written member | corrected member |
|---|---|---|---|---|---|---|
| src/main/java/com/example/recipeapp/controller/UserController.java:32-71 | `registerUser` saves the bound form, and `@ModelAttribute` binds a request `id`; save then merges onto the stored row with that id | `id=1&username=mallory&password=secret1` against a table whose row 1 is the seeded admin: every check passes, and row 1 becomes mallory with ROLE_USER, so the admin account is gone | registration only ever creates a new account | not executed | UserController.BoundIdOverwritesAccount | UserController.UserController.RegisterUser |
