# foodgram recipe API — a Dafny model

This project models the write and filter logic of foodgram, a Django REST API
for sharing recipes. Users publish recipes made of tagged, measured
ingredients. They follow authors, mark favourites and fill a shopping cart,
and they download the cart as a plain-text shopping list. The admin site adds
an ingredient formset check, list columns, a name filter and a custom save for
subscriptions.

The database is the immutable value `Models.Db`:
- users, the tag catalogue and the ingredient catalogue;
- recipes, keyed by id;
- the `IngredientRecipe` rows, as a set;
- subscriptions, as a sequence of rows with ascending auto-increment keys;
- favourites and cart entries, as sets of (user, recipe) pairs.

`Models.Valid` collects every declared bound, uniqueness constraint and
foreign key. Each view is a pure function from a database and a request to
`Result<Db>`. The error value names the exception the view would raise:
a serializer `ValidationError`, `Http404`, `KeyError`, or `IntegrityError`
(`ConstraintViolation`). `Store.Handle` dispatches a request to its view, and
`Store.RunKeepsValid` shows that any sequence of requests by existing users
keeps the database valid. The admin subscription form runs the corrected
`save_model` of finding 2, not the one as written.

Modules:
- `Base`: results and errors.
- `Text`: slicing, split and join, whitespace trimming, decimal rendering, upper-casing.
- `Models`: the entities, the cascades and `__str__`.
- `Validators`: the serializer `validate` methods.
- `Relations`: the favourite, cart, subscribe and subscriptions views, and the serializer flags.
- `ShoppingList`: `download_shopping_cart`.
- `ImageField`: `Base64ImageField`.
- `RecipeWrite`: `RecipeWriteSerializer` and the create and partial-update views.
- `Admin`: the admin classes.
- `Filters`: `api/filters.py`.
- `AdminFilters`: `recipes/filters.py`.
- `Store`: request dispatch.

## Model

| member | source | states |
|---|---|---|
| Models.WithRelation | backend/foodgram/recipes/models.py:166-211 | replacing the favourites (or the cart) gives exactly the new relation and leaves the other relation and every other table alone |
| Models.KeepSubscriptions | backend/foodgram/api/views.py:81-82 | deleting subscription rows keeps exactly the rows that satisfy the test, and keeps them in ascending key order |
| Models.FindSubscription | backend/foodgram/api/views.py:81 | `get_object_or_404(Subscribe, user=…, author=…)`: no id when no row names the pair; otherwise the id of a stored row for that pair |
| Models.ShortStr | backend/foodgram/recipes/models.py:39-40 | the string form of a tag (and, through `TagStr`, `IngredientStr` and `RecipeStr`, of an ingredient and a recipe) is a prefix of the name of at most 15 characters, exactly 15 when the name is longer, and the whole name when it is not |
| Models.IngredientRecipeStr | backend/foodgram/recipes/models.py:134-135 | the string form of a row is at most 15 characters, and for a valid amount it is the amount's decimal digits, which parse back to the amount |
| Models.ValidAmountDigits | backend/foodgram/recipes/models.py:115-122 | an amount in 1..999 renders in at most three digits that parse back to it |
| Models.DeleteRecipes | backend/foodgram/recipes/models.py:105-109 | deleting recipes cascades to exactly their ingredient rows, favourites and cart entries, keeps everything else, and keeps the database valid |
| Models.DeleteRecipe | backend/foodgram/recipes/models.py:166-172 | deleting one recipe removes it with its rows, favourites and cart entries; the other recipes keep their values, and users, tags, ingredients, subscriptions and both id counters are unchanged; the database stays valid |
| Models.DeleteUser | backend/foodgram/recipes/models.py:62-67 | deleting a user cascades to the recipes they wrote and to every subscription naming them as follower or author; a favourite or cart entry survives iff it belongs to another user and does not name one of the user's recipes, and an ingredient row survives iff it does not belong to one of those recipes; other recipes are unchanged, tags, ingredients and both id counters are untouched, and the database stays valid |
| Models.DeleteIngredient | backend/foodgram/recipes/models.py:110-114 | deleting an ingredient removes it and exactly the rows that use it, keeps every other ingredient as it was and every other table unchanged, and keeps the database valid |
| Models.DeleteTag | backend/foodgram/recipes/models.py:78-81 | deleting a tag removes it and drops it from every recipe's tag set; every other tag, every other field of each recipe, and every other table are unchanged; the database stays valid |
| Validators.FollowValidate | backend/foodgram/api/serializers.py:112-123 | a POST is refused with "already subscribed" when the pair is stored, and otherwise with "self-follow" when user is author; it passes exactly when neither holds; other verbs always pass |
| Validators.FavoriteValidate | backend/foodgram/api/serializers.py:169-182 | a POST passes iff the pair is not yet a favourite, a DELETE iff it is; the error names the case |
| Validators.CartValidate | backend/foodgram/api/serializers.py:200-213 | the same rule for the shopping cart |
| Validators.CheckIngredients | backend/foodgram/api/serializers.py:304-311 | the ingredient loop fails only with not-found, multiple-found or duplicate |
| Validators.CheckIngredientsPasses | backend/foodgram/api/serializers.py:304-311 | the loop passes iff every name lookup finds exactly one ingredient, the looked-up ingredients are pairwise distinct, and none was seen before |
| Validators.ItemErrorShift | backend/foodgram/api/serializers.py:304-311 | past the first item, each item raises what it raises in the rest of the list with the first name counted as seen |
| Validators.FirstFailureShift | backend/foodgram/api/serializers.py:304-311 | when the first item passes, the first item to raise is one further along than in the rest of the list |
| Validators.CheckIngredientsFails | backend/foodgram/api/serializers.py:304-311 | the loop fails with a given error iff some item is the first to raise and raises that error: 404 for a name no ingredient carries, multiple-found for a name several carry, duplicate for an ingredient looked up before |
| Validators.RepeatedIngredientRefused | backend/foodgram/api/serializers.py:308-310 | the same resolvable ingredient listed twice at the start fails as a duplicate |
| Validators.DistinctLookupsDistinctIds | backend/foodgram/api/serializers.py:305-310 | distinct looked-up names imply distinct submitted ingredient ids |
| Validators.RecipeValidate | backend/foodgram/api/serializers.py:291-312 | a missing list key is a `KeyError`; empty tags, an unknown tag and empty ingredients each fail with their own error, in that order, each as an iff; it passes iff all checks hold, and then the ingredient ids are distinct |
| Validators.RecipeValidateIngredientError | backend/foodgram/api/serializers.py:291-312 | once the list keys and tags pass and the ingredient list is not empty, `validate` fails with a given error iff the first ingredient item to raise raises that error |
| Validators.RepeatedIngredientInPayload | backend/foodgram/api/serializers.py:291-312 | a payload with valid tags listing one resolvable ingredient twice in a row fails `validate` as a duplicate |
| Relations.InsertUserRecipe | backend/foodgram/recipes/models.py:185-192 | the unique constraint: inserting a pair succeeds iff it is absent, and then adds exactly that pair |
| Relations.UserRecipeAction | backend/foodgram/api/views.py:146-182 | other verbs are refused; validation runs before the recipe lookup; a valid request on a missing recipe is a 404; success adds (POST) or removes (DELETE) exactly the pair and changes nothing else; the constraint is never hit |
| Relations.AddTwiceRefused | backend/foodgram/api/views.py:146-156 | adding a favourite (or cart entry) twice is refused the second time as already present |
| Relations.UserRecipeActionKeepsValid | backend/foodgram/api/views.py:146-182 | a successful favourite or cart request by an existing user keeps the database valid |
| Relations.InsertSubscription | backend/foodgram/recipes/models.py:152-160 | saving a subscription succeeds iff the pair is not stored; it appends a row with the next key and changes nothing else |
| Relations.AscendingIdsUnique | backend/foodgram/recipes/models.py:138 | rows with ascending keys have unique keys, so deleting by key deletes one row |
| Relations.SubscribeAction | backend/foodgram/api/views.py:70-84 | other verbs are refused; an unknown author is a 404; a POST fails as already subscribed or self-follow and otherwise adds exactly the pair; a DELETE succeeds iff the pair is stored and then removes exactly that pair; nothing else changes |
| Relations.SelfFollowRefused | backend/foodgram/api/serializers.py:119-121 | subscribing to oneself never succeeds |
| Relations.Subscriptions | backend/foodgram/api/views.py:91-92 | the listing holds exactly the requester's subscriptions, in ascending key order |
| Relations.NewSubscriptionListedLast | backend/foodgram/api/views.py:79-92 | a new subscription appears last in its follower's listing |
| Relations.KeepAppend | backend/foodgram/api/views.py:92 | filtering commutes with appending a row that passes the filter |
| Relations.SubscribeActionKeepsValid | backend/foodgram/api/views.py:70-84 | a successful subscribe or unsubscribe keeps the database valid and never creates a self-subscription |
| Relations.AppendKeepsValid | backend/foodgram/recipes/models.py:138-160 | appending a new pair's row with the next key keeps the invariant |
| Relations.FollowRepresentation | backend/foodgram/api/serializers.py:125-134 | an entry shows the author's id, is marked subscribed iff the pair `(obj.user, obj.author)` is followed (the same answer `IsSubscribed` gives that user), lists exactly the author's recipes, and counts them |
| Relations.SubscriptionsPage | backend/foodgram/api/views.py:91-98 | one entry per subscription of the requester, in order, each the `FollowSerializer` representation of its row: it names the author, is marked subscribed, lists exactly the author's recipes and counts them |
| Relations.SubscriptionsPageFollowed | backend/foodgram/api/views.py:91-98 | the page names an author iff the requester follows that author |
| Relations.IsSubscribed | backend/foodgram/api/serializers.py:38-41 | true iff the requester is authenticated and follows the author |
| Relations.FlagsFollowActions | backend/foodgram/api/serializers.py:242-251 | after a successful POST the flag is set, after a successful DELETE it is cleared |
| ShoppingList.KeySetIndex | backend/foodgram/api/views.py:199-210 | a key is in the dictionary iff some entry carries it |
| ShoppingList.Lookup | backend/foodgram/api/views.py:201 | `in data`: no value iff the key is absent |
| ShoppingList.Assign | backend/foodgram/api/views.py:207-210 | assigning keeps the keys in place and appends a new key at the end, as a Python dict does |
| ShoppingList.LookupAfterAssign | backend/foodgram/api/views.py:207-210 | after assigning, the key maps to the new value and every other key is unchanged |
| ShoppingList.AddTo | backend/foodgram/api/views.py:202-205 | `+=` on a dict key succeeds iff the key is present (otherwise `KeyError`), adds to its value and keeps the key order |
| ShoppingList.RowKeysOfPrefix | backend/foodgram/api/views.py:203-204 | the composite keys of the rows grow by the last row's key |
| ShoppingList.AssignKeepsDistinct | backend/foodgram/api/views.py:207-210 | assigning keeps the keys distinct |
| ShoppingList.Aggregate | backend/foodgram/api/views.py:199-210 | the loop as written: on success the keys are distinct and are exactly the rows' composite keys; the only failure is `KeyError` |
| ShoppingList.AggregateFailsIff | backend/foodgram/api/views.py:199-205 | the loop as written, and so the download, raises `KeyError` iff some row's bare name is the composite key of an earlier row while its own composite key is not |
| ShoppingList.FailsAtPrefix | backend/foodgram/api/views.py:199-205 | some row stops the loop iff one of the earlier rows does or the last one does |
| ShoppingList.LastStepFails | backend/foodgram/api/views.py:200-205 | once the earlier rows went through, the last row raises `KeyError` iff its name is an earlier key and its own key is new |
| ShoppingList.AggregateNoHitSteps | backend/foodgram/api/views.py:200-210 | when no bare name equals an earlier key, each row is a plain assignment |
| ShoppingList.AggregateLastWins | backend/foodgram/api/views.py:206-210 | in that case each key maps to the amount of its last row |
| ShoppingList.Entries | backend/foodgram/api/views.py:203-204 | one entry per row, with the row's composite key and amount |
| ShoppingList.FirstKeys | backend/foodgram/api/views.py:199-210 | the rows' composite keys in the order of their first row, with no key repeated |
| ShoppingList.FirstKeysCover | backend/foodgram/api/views.py:199-210 | a key is listed by `FirstKeys` iff some row produces it |
| ShoppingList.LookupAt | backend/foodgram/api/views.py:199-210 | in a dictionary with distinct keys, looking up an entry's key gives that entry's amount |
| ShoppingList.AssignFollowsFirstKeys | backend/foodgram/api/views.py:202-210 | writing a row's key into a dictionary ordered by the earlier rows' first keys leaves it ordered by the rows' first keys: an existing key stays in place |
| ShoppingList.AggregateFirstOrder | backend/foodgram/api/views.py:199-210 | without a bare-name hit, one entry per distinct `name(unit)` key in first-insertion order, each holding the amount of its last row: a later row overwrites its key in place |
| ShoppingList.AggregateInOrder | backend/foodgram/api/views.py:199-210 | with distinct composite keys and no bare-name hit, the dictionary lists the rows in order |
| ShoppingList.Render | backend/foodgram/api/views.py:211-213 | the content is empty iff the dictionary is |
| ShoppingList.RenderAppend | backend/foodgram/api/views.py:212-213 | rendering a concatenation is the concatenation of the renderings |
| ShoppingList.DownloadShoppingCart | backend/foodgram/api/views.py:188-216 | the download fails iff the loop raises `KeyError`; an empty cart gives empty content and a non-empty one non-empty content |
| ShoppingList.DownloadListsEachRow | backend/foodgram/api/views.py:199-213 | in the ordinary case the file has one line per row, `name(unit) - amount` |
| ShoppingList.AsWrittenKeyError | backend/foodgram/api/views.py:189-205 | finding 1: rows "a"/"b" then "a(b)"/"c", which differ in (name, unit) as the grouped query guarantees, make the loop raise `KeyError` |
| ShoppingList.AsWrittenOverwrites | backend/foodgram/api/views.py:189-210 | finding 1: two rows with distinct (name, unit) whose composite keys collide keep only the last amount |
| ShoppingList.AggregateFixed | backend/foodgram/api/views.py:199-210 | the corrected loop never fails; its keys are distinct and are exactly the rows' composite keys |
| ShoppingList.StepFixedKeepsDistinct | backend/foodgram/api/views.py:201-210 | one corrected step keeps the keys distinct and adds the row's key |
| ShoppingList.SumForAbsent | backend/foodgram/api/views.py:196 | a key no row carries sums to zero |
| ShoppingList.LookupAfterStepFixed | backend/foodgram/api/views.py:201-210 | one corrected step adds the row's amount to its key and leaves other keys alone |
| ShoppingList.AggregateFixedSums | backend/foodgram/api/views.py:199-210 | the corrected dictionary maps each composite key to the sum of its rows' amounts, and has no other keys |
| ShoppingList.DownloadFixed | backend/foodgram/api/views.py:188-216 | the corrected download is empty iff the cart is |
| ShoppingList.FixedAgreesInOrdinaryCase | backend/foodgram/api/views.py:199-213 | where the code as written works, the corrected download gives the same file |
| ShoppingList.SumsAfterStepFixed | backend/foodgram/api/views.py:199-210 | corrected: one step keeps every key at the total of the rows seen so far |
| ShoppingList.FixedFirstOrder | backend/foodgram/api/views.py:199-210 | corrected: one entry per distinct `name(unit)` key in first-insertion order, each holding the total of its rows |
| ShoppingList.FixedInOrder | backend/foodgram/api/views.py:199-210 | with distinct composite keys the corrected dictionary lists the rows in order |
| ShoppingList.FixedSumsCollision | backend/foodgram/api/views.py:199-210 | the corrected loop sums the colliding rows and lists both rows of the `KeyError` input |
| ImageField.Extension | backend/foodgram/api/serializers.py:69 | `format.split('/')[-1]`: a slash-free suffix of the header that follows its last '/', or the whole header when it has none |
| ImageField.LastPieceOfJoin | backend/foodgram/api/serializers.py:69 | the last piece of a '/'-join ends the text, right after a '/' when there are two pieces or more |
| ImageField.ToInternalValue | backend/foodgram/api/serializers.py:65-73 | non-text values and text without the `data:image` prefix pass unchanged; a data URI is accepted iff `;base64,` splits it in two, and becomes `temp.<ext>` with the rest as payload; otherwise unpacking fails |
| ImageField.DataUriRoundTrip | backend/foodgram/api/serializers.py:66-71 | a data URI built from an extension and a payload parses back to `temp.<ext>` and that payload |
| ImageField.ExtensionOfImageHeader | backend/foodgram/api/serializers.py:69 | the extension of `data:image/<ext>` is `<ext>` |
| ImageField.SplitWithoutMarker | backend/foodgram/api/serializers.py:68 | text without a ';' does not split on `;base64,`, so unpacking it into two names fails |
| ImageField.SplitWithoutSeparator | backend/foodgram/api/serializers.py:69 | splitting text without the separator gives the text alone |
| ImageField.SplitOfSlashedHasTwoParts | backend/foodgram/api/serializers.py:69 | splitting text that contains '/' gives two pieces or more |
| ImageField.JoinLastSeparated | backend/foodgram/api/serializers.py:69 | a join of two or more pieces ends with the separator and the last piece |
| Text.Split | backend/foodgram/api/serializers.py:68 | `str.split`: the pieces join back to the text, and no piece contains the separator |
| Text.SplitAroundUniqueMarker | backend/foodgram/api/serializers.py:68 | `a + sep + b` splits into exactly `[a, b]` when sep's first character occurs nowhere else |
| Text.LeadingSpaces | backend/foodgram/recipes/models.py:68-77 | the length of the whitespace run that opens the text, followed by a non-whitespace character or the end |
| Text.TrailingSpaces | backend/foodgram/recipes/models.py:68-77 | the length of the whitespace run that closes the text, preceded by a non-whitespace character or the start |
| Text.Trim | backend/foodgram/recipes/models.py:68-77 | `str.strip()` as the serializer's character fields apply it: the result is empty iff the text is all whitespace, otherwise it starts and ends with a non-whitespace character, and it is a slice of the text with only whitespace around it |
| Text.TrimPadded | backend/foodgram/recipes/models.py:68-72 | trimming whitespace padding off a core that has no whitespace at its ends gives the core back |
| Text.PaddingUnique | backend/foodgram/recipes/models.py:68-72 | a text has at most one slice with non-whitespace ends and only whitespace around it |
| Text.DecimalRoundTrip | backend/foodgram/api/views.py:213 | the decimal rendering of an amount parses back to it |
| Text.UpperIdempotent | backend/foodgram/api/filters.py:35 | upper-casing twice is upper-casing once |
| RecipeWrite.StoredImage | backend/foodgram/recipes/models.py:73-76 | an image is stored iff the field decodes it, and it is stored under `recipes/img/` with the decoded file name |
| RecipeWrite.RowsForCons | backend/foodgram/api/serializers.py:316-321 | the rows for a list are the first item's row plus the rest's |
| RecipeWrite.IngredientCreate | backend/foodgram/api/serializers.py:314-321 | saving the rows succeeds iff the ingredient ids are distinct and none already has a row for the recipe; it adds exactly one row per item; the only failure is the unique constraint |
| RecipeWrite.RowsForCount | backend/foodgram/api/serializers.py:314-321 | distinct ids give exactly one row per item |
| RecipeWrite.Create | backend/foodgram/api/serializers.py:323-329 | the new recipe takes the next id and the submitted fields, name and text trimmed, with the tag set and one row per ingredient; on a valid database distinct ingredient ids never hit the constraint; nothing else changes |
| RecipeWrite.Patched | backend/foodgram/api/serializers.py:331-339 | each submitted field replaces the stored one (name and text trimmed) and each absent field is kept; the author never changes |
| RecipeWrite.Update | backend/foodgram/api/serializers.py:331-339 | the recipe is patched; a submitted ingredient list replaces all the recipe's rows and an absent one keeps them; distinct ids never hit the constraint |
| RecipeWrite.CreateRecipe | backend/foodgram/api/views.py:134-140 | the whole new recipe (cooking time and stored image included) is the one `create` builds from the cleaned fields under the next id, and only the recipes, the ingredient rows and the id counter change; an image text that starts with `data:image` but does not unpack is a server error before anything else; an invalid field (including a blank or taken trimmed name and a blank text) is refused next, then the validation errors in order; on a valid database a valid request succeeds iff validation passes; the new recipe belongs to the requester with the trimmed, non-blank name and text, the submitted tags and rows, and other recipes are unchanged |
| RecipeWrite.CreateChecked | backend/foodgram/api/serializers.py:291-329 | once the fields passed, a failed validation is the view's error; a success passed validation and stores the new recipe under the next id with one row per ingredient |
| RecipeWrite.CreateCheckedSucceeds | backend/foodgram/api/serializers.py:314-329 | on a valid database a request that passed validation is saved, so the unique constraint is never the error |
| RecipeWrite.CreatedRecipe | backend/foodgram/api/serializers.py:323-329 | the saved recipe is the requester's, with the trimmed non-blank name and text and the submitted tags, and on a valid database every earlier recipe is kept as it was |
| RecipeWrite.NoRowsForFreshId | backend/foodgram/recipes/models.py:104-109 | on a valid database no ingredient row names the next recipe id |
| RecipeWrite.PartialUpdateRecipe | backend/foodgram/api/serializers.py:291-339 | a missing recipe is a 404; an image text that does not unpack is then a server error; an invalid sent field (including a blank or taken trimmed name and a blank text) is refused; a request without both lists is a `KeyError`; otherwise it succeeds iff validation passes, replaces exactly the recipe's rows and fields, and leaves other recipes and rows alone |
| RecipeWrite.CreateKeepsValid | backend/foodgram/api/serializers.py:323-329 | a successful create keeps the database valid |
| RecipeWrite.PartialUpdateKeepsValid | backend/foodgram/api/serializers.py:331-339 | a successful partial update keeps the database valid |
| RecipeWrite.StoreKeepsNamesUnique | backend/foodgram/recipes/models.py:68-72 | storing a recipe whose name no other recipe carries keeps recipe names unique |
| RecipeWrite.AddRowsKeepsUnique | backend/foodgram/recipes/models.py:127-132 | adding one row per distinct ingredient for a recipe with no rows yet keeps one row per (recipe, ingredient) |
| RecipeWrite.PatchNeedsBothLists | backend/foodgram/api/serializers.py:292-293 | a PATCH that omits the tags or the ingredients always fails |
| RecipeWrite.BlankFieldsRefused | backend/foodgram/recipes/models.py:68-77 | a name or a text of whitespace only (the empty text included) is refused, on create and on a partial update |
| RecipeWrite.PaddedNameTaken | backend/foodgram/recipes/models.py:68-72 | a name that is an existing recipe's name padded with whitespace is refused as taken |
| RecipeWrite.MissingMarkerCrashes | backend/foodgram/api/serializers.py:66-68 | an image `data:image/png` without `;base64,` makes create, and a partial update of an existing recipe, end in the unpacking error |
| Admin.CleanFormSet | backend/foodgram/recipes/admin.py:22-31 | the count rule: the formset is accepted iff some form has data and is not marked for deletion |
| Admin.ShortName | backend/foodgram/recipes/admin.py:52-53 | the column is the name's first 15 characters |
| Admin.ShortNameIsStr | backend/foodgram/recipes/admin.py:52-83 | the `short_name` column equals the model's string form for tags, ingredients and recipes |
| Admin.CountFavorites | backend/foodgram/recipes/admin.py:79-80 | the count is zero iff no favourite names the recipe |
| Admin.CountFavoritesTracksActions | backend/foodgram/recipes/admin.py:79-80 | a favourite added raises the count by one, one removed lowers it by one, and cart actions leave it alone |
| Admin.SaveSubscriptionAsWritten | backend/foodgram/recipes/admin.py:101-103 | finding 2, as written: a self-subscription is refused and anything else returns the database unchanged |
| Admin.AsWrittenDropsSubscription | backend/foodgram/recipes/admin.py:101-103 | finding 2: a new, legitimate subscription is reported saved but is not stored |
| Admin.SaveSubscription | backend/foodgram/recipes/admin.py:101-103 | corrected: a self-subscription is refused; otherwise the row is stored with the next key iff the pair is new |
| Admin.SaveSubscriptionKeepsValid | backend/foodgram/recipes/admin.py:101-103 | the corrected save keeps the database valid and never stores a self-subscription |
| Filters.Keep | backend/foodgram/api/filters.py:21-31 | `queryset.filter`: keeps exactly the entries that pass, in order |
| Filters.KeepKeep | backend/foodgram/api/filters.py:6-10 | chained filters are one filter on the conjunction |
| Filters.FilterRecipes | backend/foodgram/api/filters.py:6-31 | corrected: a tag slug that no recipe carries (the choices of `AllValuesMultipleFilter` come from the recipes' tag slugs) is refused; otherwise the result holds exactly the recipes that match every given filter |
| Filters.ChainIsMatch | backend/foodgram/api/filters.py:6-31 | the chained tests agree with the combined match test at every recipe |
| Filters.FilterRecipesIsKeepMatches | backend/foodgram/api/filters.py:6-31 | the filter chain is one filter on the combined match test |
| Filters.ChainIsKeep | backend/foodgram/api/filters.py:6-31 | the filter chain is one filter on the chained tests |
| Filters.NarrowIsKeep | backend/foodgram/api/filters.py:21-25 | a filter applied only when a condition holds is a filter on the guarded test |
| Filters.KeepAll | backend/foodgram/api/filters.py:21-25 | a filter everything passes keeps the queryset |
| Filters.KeepSamePredicate | backend/foodgram/api/filters.py:21-31 | filters with pointwise-equal tests agree |
| Filters.FlagValueIgnored | backend/foodgram/api/filters.py:21-31 | any two non-empty flag values filter alike; the value itself is never read |
| Filters.FilterAgreesWithFlags | backend/foodgram/api/serializers.py:242-251 | for an authenticated requester, the corrected `is_favorited` filter keeps a recipe iff `is_favorited` of the recipe representation is true for it, and `is_in_shopping_cart` likewise; neither filter fails |
| Filters.AnonymousIgnoresFlags | backend/foodgram/api/filters.py:23-30 | for an anonymous requester the two flags change nothing |
| Filters.FilterRecipesAsWritten | backend/foodgram/api/filters.py:21-31 | finding 3, as written: an authenticated requester giving either flag gets a `FieldError` |
| Filters.AsWrittenFavoriteFlagFails | backend/foodgram/api/filters.py:21-25 | finding 3: `?is_favorited=1` fails as written and succeeds when corrected |
| Filters.AsWrittenAgreesWithoutFlags | backend/foodgram/api/filters.py:6-31 | without an authenticated flag both versions agree |
| Filters.FilterIngredients | backend/foodgram/api/filters.py:34-39 | an absent or empty name keeps every ingredient; otherwise it keeps exactly those whose name starts with the value, ignoring case |
| Filters.IngredientFilterCaseBlind | backend/foodgram/api/filters.py:35 | the value's case does not change the result |
| AdminFilters.Lookups | backend/foodgram/recipes/filters.py:8-9 | one choice per row, valued with the full name and labelled with its first 15 characters |
| AdminFilters.NameQueryset | backend/foodgram/recipes/filters.py:11-13 | no queryset iff no value is picked; otherwise exactly the rows with that name |
| AdminFilters.ChangeList | backend/foodgram/recipes/filters.py:11-13 | without a value the change list is unfiltered; otherwise it only narrows |
| AdminFilters.PickedChoiceListsRow | backend/foodgram/recipes/filters.py:8-13 | picking the choice offered for a row lists that row and only rows of that name |
| Store.Handle | backend/foodgram/api/views.py:70-182 | no request changes the users; each request kind touches only its own tables, and a delete keeps subscriptions, tags and ingredients and removes exactly the named, existing recipe; an admin add form that succeeds leaves the pair subscribed (the corrected save) |
| Store.HandleKeepsValid | backend/foodgram/api/views.py:70-182 | a successful request by an existing user keeps the database valid and stores no self-subscription |
| Store.RunKeepsValid | backend/foodgram/api/views.py:70-182 | any sequence of requests by existing users keeps the database valid and free of self-subscriptions |

## Left out

- The SQL query of `download_shopping_cart` (`values(...).annotate(Sum(...))`) is left out. Its result rows are a parameter of `ShoppingList.DownloadShoppingCart`.
- Base64 decoding and Pillow's image validation are not modelled. The payload stays text.
- DRF's character fields also refuse text that holds a NUL character. Only trimming, blankness and the name's length and uniqueness are modelled.
- Renaming a stored file when its name is taken is left out. That belongs to the storage backend.
- `backend/foodgram/api/permissions.py` (`IsAuthotOrAuthenticatedOrReadOnly`) is not part of this model. The views take an authenticated user id.
- Full `PUT` updates go through `RecipeSerializer`, whose nested writes are not shown, so they are left out.
- Pagination is left out. `Relations.SubscriptionsPage` models the whole listing.
- The string forms of users, `Subscribe`, `Favorite` and `ListShopping` are left out. Users are opaque ids here.
- The djoser user endpoints and the read-only list and retrieve views are left out.
- Admin search fields, ordering and `empty_value_display` are left out.
- The admin's change form for an existing subscription is left out. Only the add form is modelled.
- Store.Handle: the admin add form is dispatched to the corrected `Admin.SaveSubscription`. The save as written, which stores nothing, is `Admin.SaveSubscriptionAsWritten` and is kept out of the request loop.
- Admin.CleanFormSet: the `super().clean()` call at the head of `clean` runs Django's inline-formset checks (among them `validate_unique`), which are not modelled. The member states only the count rule that follows.
- `recipes/admin.py` imports `RecipeFilter` and `TagFilter` from `recipes/filters.py`, which defines neither. That import failure is noted but not modelled.
- The `author` query value is taken as a user id. Parsing it from text is left out.
- Filters.FilterIngredients: `istartswith` is modelled with an upper-case mapping for ASCII and basic Cyrillic letters only. The database's full Unicode case mapping is left out, because the catalogue is in Russian and English.
- A create that fails inside `ingredient_create` leaves a partly written recipe behind, because the views run without a transaction. The model treats each view as all-or-nothing; `RecipeWrite.CreateRecipe` shows this failure cannot happen on a valid database.

## Findings

| source | as written | input that shows it | evidently intended | confidence | as-written member | corrected member |
|---|---|---|---|---|---|---|
| backend/foodgram/api/views.py:199-210 | the loop tests the bare ingredient name against a dictionary keyed by `name(unit)`, so `+=` can hit a missing key, and two rows with the same `name(unit)` overwrite each other | cart rows ("a", "b", 1) then ("a(b)", "c", 2) raise `KeyError`; rows ("a", "b)(c", 1) and ("a(b)", "c", 2) keep only 2 | test the composite key and sum the amounts of rows sharing it | not executed | ShoppingList.AsWrittenKeyError | ShoppingList.AggregateFixedSums |
| backend/foodgram/recipes/admin.py:101-103 | `SubscribeAdmin.save_model` overrides the default save and never calls `obj.save()` | adding user 1 as a follower of user 2 in the admin stores nothing | refuse a self-subscription, otherwise save the row | not executed | Admin.AsWrittenDropsSubscription | Admin.SaveSubscription |
| backend/foodgram/api/filters.py:21-31 | the lookups `recipe_favorite__user` and `list_shopping_recipe__user` name no relation of `Recipe`; the related names are `recipes_favorite_recipe` and `recipes_listshopping_recipe`, so Django raises `FieldError` | an authenticated GET `/recipes/?is_favorited=1` | keep the recipes the requester has as favourites (or in the cart) | not executed | Filters.AsWrittenFavoriteFlagFails | Filters.FilterRecipes |
