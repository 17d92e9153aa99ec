/** `RecipeWriteSerializer` and the two recipe views that use it: field-level
    checks, `validate`, `ingredient_create`, `create` and `update`, and the
    `create` / `partial_update` actions of the recipe view set. */
module RecipeWrite {
  import opened Base
  import opened Models
  import opened Validators
  import ImageField
  import Text

  /** `upload_to` of `Recipe.image`. */
  const IMAGE_UPLOAD_TO: string := "recipes/img/"

  // ---------------------------------------------------------------------
  // Field-level checks (run before `validate`)

  /** `Base64ImageField` accepts the value only when it is a data URI; the
      stored name is the upload directory followed by the built file name. */
  function StoredImage(s: string): (r: Option<string>)
    ensures r.Some? <==> ImageField.ToInternalValue(ImageField.TextData(s)).Ok? &&
                         ImageField.ToInternalValue(ImageField.TextData(s)).value.Decoded?
    ensures r.Some? ==> r.value == IMAGE_UPLOAD_TO + ImageField.ToInternalValue(ImageField.TextData(s)).value.fileName
  {
    match ImageField.ToInternalValue(ImageField.TextData(s))
    case Ok(v) => if v.Decoded? then Some(IMAGE_UPLOAD_TO + v.fileName) else None
    case Err(_) => None
  }

  /** Another recipe than `instance` already carries the name. */
  predicate NameTaken(db: Db, name: string, instance: Option<RecipeId>)
  {
    exists rid :: rid in db.recipes && db.recipes[rid].name == name && instance != Some(rid)
  }

  /** The serializer's `name` field: a `CharField` that trims whitespace
      and refuses a blank value, then checks the trimmed name against the
      model's `max_length` and `unique`. */
  predicate NameValid(db: Db, name: string, instance: Option<RecipeId>)
  {
    var n := Text.Trim(name);
    n != "" && |n| <= CHAR_MAX_L && !NameTaken(db, n, instance)
  }

  /** The unpacking of the data-URI header raises `ValueError`. It is not a
      validation error, so it escapes the field loop as a server error. */
  predicate ImageCrashes(data: RecipeData)
  {
    data.image.Some? && ImageField.ToInternalValue(ImageField.TextData(data.image.value)).Err?
  }

  /** Every field the client sent passes its own validators, and every field
      is present unless the request is partial: related keys exist, amounts
      and cooking time lie in their bounds, the trimmed name is non-blank,
      fits and is unique among the other recipes, the trimmed text is
      non-blank, and the image is a data URI. */
  predicate FieldsValid(db: Db, data: RecipeData, partial: bool, instance: Option<RecipeId>)
  {
    && (!partial ==> data.tags.Some? && data.ingredients.Some? && data.name.Some? &&
                     data.text.Some? && data.cookingTime.Some? && data.image.Some?)
    && RefsExist(db, data)
    && (data.ingredients.Some? ==>
          forall k :: 0 <= k < |data.ingredients.value| ==> AmountValid(data.ingredients.value[k].amount))
    && (data.cookingTime.Some? ==> CookingTimeValid(data.cookingTime.value))
    && (data.name.Some? ==> NameValid(db, data.name.value, instance))
    && (data.text.Some? ==> Text.Trim(data.text.value) != "")
    && (data.image.Some? ==> StoredImage(data.image.value).Some?)
  }

  // ---------------------------------------------------------------------
  // ingredient_create

  /** A row for (recipe, ingredient) is stored. */
  predicate HasRow(rows: set<IngredientRecipe>, rid: RecipeId, iid: IngredientId)
  {
    exists row :: row in rows && row.recipe == rid && row.ingredient == iid
  }

  /** The rows the payload asks for. */
  function RowsFor(rid: RecipeId, items: seq<IngredientAmount>): set<IngredientRecipe>
  {
    set k | 0 <= k < |items| :: IngredientRecipe(rid, items[k].ingredient, items[k].amount)
  }

  ghost predicate IdsDistinct(items: seq<IngredientAmount>)
  {
    forall i, j :: 0 <= i < j < |items| ==> items[i].ingredient != items[j].ingredient
  }

  lemma RowsForCons(rid: RecipeId, items: seq<IngredientAmount>)
    requires |items| > 0
    ensures RowsFor(rid, items) ==
              {IngredientRecipe(rid, items[0].ingredient, items[0].amount)} + RowsFor(rid, items[1..])
  {
    var rest := items[1..];
    forall row | row in RowsFor(rid, items)
      ensures row in {IngredientRecipe(rid, items[0].ingredient, items[0].amount)} + RowsFor(rid, rest)
    {
      var k :| 0 <= k < |items| && row == IngredientRecipe(rid, items[k].ingredient, items[k].amount);
      if k > 0 {
        assert row == IngredientRecipe(rid, rest[k - 1].ingredient, rest[k - 1].amount);
      }
    }
    forall row | row in RowsFor(rid, rest)
      ensures row in RowsFor(rid, items)
    {
      var k :| 0 <= k < |rest| && row == IngredientRecipe(rid, rest[k].ingredient, rest[k].amount);
      assert row == IngredientRecipe(rid, items[k + 1].ingredient, items[k + 1].amount);
    }
  }

  /** The save loop of `ingredient_create`: one row per entry, in order; the
      `unique_ingredient_recipe` constraint refuses a row whose pair is
      already stored, including one saved earlier in the same loop. */
  function IngredientCreate(rows: set<IngredientRecipe>, rid: RecipeId, items: seq<IngredientAmount>)
    : (r: Result<set<IngredientRecipe>>)
    ensures r.Ok? <==> IdsDistinct(items) && forall k :: 0 <= k < |items| ==> !HasRow(rows, rid, items[k].ingredient)
    ensures r.Ok? ==> r.value == rows + RowsFor(rid, items)
    ensures r.Err? ==> r.error == ConstraintViolation
    decreases |items|
  {
    if |items| == 0 then Ok(rows)
    else
      var item := items[0];
      var row := IngredientRecipe(rid, item.ingredient, item.amount);
      RowsForCons(rid, items);
      if HasRow(rows, rid, item.ingredient) then Err(ConstraintViolation)
      else
        var r := IngredientCreate(rows + {row}, rid, items[1..]);
        assert r.Ok? ==> IdsDistinct(items) by {
          if r.Ok? {
            forall i, j | 0 <= i < j < |items|
              ensures items[i].ingredient != items[j].ingredient
            {
              if i == 0 {
                assert !HasRow(rows + {row}, rid, items[1..][j - 1].ingredient);
              } else {
                assert items[1..][i - 1].ingredient != items[1..][j - 1].ingredient;
              }
            }
          }
        }
        assert IdsDistinct(items) && (forall k :: 0 <= k < |items| ==> !HasRow(rows, rid, items[k].ingredient))
               ==> r.Ok? by {
          if IdsDistinct(items) && (forall k :: 0 <= k < |items| ==> !HasRow(rows, rid, items[k].ingredient)) {
            forall k | 0 <= k < |items| - 1
              ensures !HasRow(rows + {row}, rid, items[1..][k].ingredient)
            {
              assert items[1..][k] == items[k + 1];
              assert items[0].ingredient != items[k + 1].ingredient;
            }
          }
        }
        r
  }

  /** Distinct entries give exactly one row each. */
  lemma RowsForCount(rid: RecipeId, items: seq<IngredientAmount>)
    requires IdsDistinct(items)
    ensures |RowsFor(rid, items)| == |items|
    decreases |items|
  {
    if |items| > 0 {
      RowsForCons(rid, items);
      var rest := items[1..];
      assert IdsDistinct(rest) by {
        forall i, j | 0 <= i < j < |rest|
          ensures rest[i].ingredient != rest[j].ingredient
        {
          assert rest[i] == items[i + 1] && rest[j] == items[j + 1];
        }
      }
      RowsForCount(rid, rest);
      forall k | 0 <= k < |rest|
        ensures IngredientRecipe(rid, rest[k].ingredient, rest[k].amount).ingredient != items[0].ingredient
      {
        assert rest[k] == items[k + 1];
      }
    }
  }

  // ---------------------------------------------------------------------
  // create and update

  /** A payload in which every field is present. */
  predicate Complete(data: RecipeData)
  {
    data.tags.Some? && data.ingredients.Some? && data.name.Some? &&
    data.text.Some? && data.cookingTime.Some? && data.image.Some?
  }

  function TagSet(tags: seq<TagId>): set<TagId>
  {
    set k | 0 <= k < |tags| :: tags[k]
  }

  /** The recipe row `create` saves: the fields as the serializer cleaned
      them, the stored image name and the tag set. */
  function NewRecipe(author: UserId, data: RecipeData): Recipe
    requires Complete(data) && StoredImage(data.image.value).Some?
  {
    Recipe(author, Text.Trim(data.name.value), StoredImage(data.image.value).value,
           Text.Trim(data.text.value), TagSet(data.tags.value), data.cookingTime.value)
  }

  /** `create`: the recipe row is saved with the next primary key, then its
      ingredient rows, then its tags. */
  function Create(db: Db, author: UserId, data: RecipeData): (r: Result<(Db, RecipeId)>)
    requires Complete(data) && FieldsValid(db, data, false, None)
    ensures r.Ok? ==> r.value.1 == db.nextRecipeId
    ensures r.Err? ==> r.error == ConstraintViolation
    ensures Valid(db) && IdsDistinct(data.ingredients.value) ==> r.Ok?
    ensures r.Ok? ==>
              var (d, rid) := r.value;
              && d.recipes == db.recipes[rid := NewRecipe(author, data)]
              && d.ingredientRows == db.ingredientRows + RowsFor(rid, data.ingredients.value)
              && d.nextRecipeId == db.nextRecipeId + 1
              && d == db.(recipes := d.recipes, ingredientRows := d.ingredientRows, nextRecipeId := d.nextRecipeId)
  {
    var rid := db.nextRecipeId;
    var recipe := NewRecipe(author, data);
    NoRowsForFreshId(db);
    var rows :- IngredientCreate(db.ingredientRows, rid, data.ingredients.value);
    Ok((db.(recipes := db.recipes[rid := recipe], nextRecipeId := rid + 1, ingredientRows := rows), rid))
  }

  /** The recipe after `update`'s `super().update`: each field sent
      replaces the stored one (name and text as trimmed by their fields),
      the tag set when `tags` was sent. */
  function Patched(recipe: Recipe, data: RecipeData): (r: Recipe)
    requires data.image.Some? ==> StoredImage(data.image.value).Some?
    ensures r.author == recipe.author
    ensures r.name == (if data.name.Some? then Text.Trim(data.name.value) else recipe.name)
    ensures r.text == (if data.text.Some? then Text.Trim(data.text.value) else recipe.text)
    ensures r.cookingTime == (if data.cookingTime.Some? then data.cookingTime.value else recipe.cookingTime)
    ensures r.image == (if data.image.Some? then StoredImage(data.image.value).value else recipe.image)
    ensures r.tags == (if data.tags.Some? then TagSet(data.tags.value) else recipe.tags)
  {
    recipe.(name := if data.name.Some? then Text.Trim(data.name.value) else recipe.name,
            text := if data.text.Some? then Text.Trim(data.text.value) else recipe.text,
            cookingTime := if data.cookingTime.Some? then data.cookingTime.value else recipe.cookingTime,
            image := if data.image.Some? then StoredImage(data.image.value).value else recipe.image,
            tags := if data.tags.Some? then TagSet(data.tags.value) else recipe.tags)
  }

  /** The rows of other recipes. */
  function RowsNotOf(rows: set<IngredientRecipe>, rid: RecipeId): set<IngredientRecipe>
  {
    set row | row in rows && row.recipe != rid
  }

  /** `update`: when `ingredients` was sent the recipe's rows are cleared and
      recreated; when `tags` was sent the tag set is replaced; the other
      fields sent are written over the stored ones. */
  function Update(db: Db, rid: RecipeId, data: RecipeData): (r: Result<Db>)
    requires rid in db.recipes
    requires data.image.Some? ==> StoredImage(data.image.value).Some?
    ensures r.Err? ==> r.error == ConstraintViolation && data.ingredients.Some?
    ensures r.Ok? ==> r.value.recipes == db.recipes[rid := Patched(db.recipes[rid], data)]
    ensures r.Ok? && data.ingredients.Some? ==>
              r.value.ingredientRows == RowsNotOf(db.ingredientRows, rid) + RowsFor(rid, data.ingredients.value)
    ensures r.Ok? && data.ingredients.None? ==> r.value.ingredientRows == db.ingredientRows
    ensures r.Ok? ==> r.value == db.(recipes := r.value.recipes, ingredientRows := r.value.ingredientRows)
    ensures data.ingredients.Some? && IdsDistinct(data.ingredients.value) ==> r.Ok?
  {
    var rows :- if data.ingredients.Some? then
                  var cleared := RowsNotOf(db.ingredientRows, rid);
                  assert forall k :: 0 <= k < |data.ingredients.value| ==>
                           !HasRow(cleared, rid, data.ingredients.value[k].ingredient);
                  IngredientCreate(cleared, rid, data.ingredients.value)
                else Ok(db.ingredientRows);
    Ok(db.(recipes := db.recipes[rid := Patched(db.recipes[rid], data)], ingredientRows := rows))
  }

  // ---------------------------------------------------------------------
  // The two views

  /** `POST /recipes/`: field checks (where a malformed data URI crashes
      before any error is reported), then `validate`, then `create` with the
      requesting user as author. */
  function CreateRecipe(db: Db, user: UserId, data: RecipeData): (r: Result<(Db, RecipeId)>)
    ensures ImageCrashes(data) ==> r == Err(MalformedDataUri)
    ensures !ImageCrashes(data) && !FieldsValid(db, data, false, None) ==> r == Err(InvalidField)
    ensures FieldsValid(db, data, false, None) && RecipeValidate(db, data).Fail? ==>
              r == Err(RecipeValidate(db, data).error)
    ensures Valid(db) && FieldsValid(db, data, false, None) ==> (r.Ok? <==> RecipeValidate(db, data) == Pass)
    ensures r.Ok? ==>
              && r.value.1 == db.nextRecipeId
              && r.value.1 in r.value.0.recipes
              && r.value.0.recipes[r.value.1].author == user
              && r.value.0.recipes[r.value.1].name == Text.Trim(data.name.value) != ""
              && r.value.0.recipes[r.value.1].text == Text.Trim(data.text.value) != ""
              && r.value.0.recipes[r.value.1].tags == TagSet(data.tags.value)
              && (Valid(db) ==>
                    forall x :: x in db.recipes ==> x in r.value.0.recipes && r.value.0.recipes[x] == db.recipes[x])
              && r.value.0.ingredientRows == db.ingredientRows + RowsFor(r.value.1, data.ingredients.value)
    ensures r.Ok? ==> FieldsValid(db, data, false, None) &&
                      r.value.0.recipes == db.recipes[r.value.1 := NewRecipe(user, data)]
    ensures r.Ok? ==> r.value.0 == db.(recipes := r.value.0.recipes, ingredientRows := r.value.0.ingredientRows,
                                       nextRecipeId := db.nextRecipeId + 1)
    ensures r.Err? ==> r.error != ConstraintViolation || !Valid(db)
  {
    if ImageCrashes(data) then Err(MalformedDataUri)
    else if !FieldsValid(db, data, false, None) then Err(InvalidField)
    else
      CreateCheckedSucceeds(db, user, data);
      CreatedRecipe(db, user, data);
      CreateChecked(db, user, data)
  }

  /** `validate` and `create` once the fields passed. */
  function CreateChecked(db: Db, user: UserId, data: RecipeData): (r: Result<(Db, RecipeId)>)
    requires FieldsValid(db, data, false, None)
    ensures RecipeValidate(db, data).Fail? ==> r == Err(RecipeValidate(db, data).error)
    ensures r.Ok? ==> RecipeValidate(db, data) == Pass
    ensures r.Ok? ==>
              && r.value.1 == db.nextRecipeId
              && r.value.0.recipes == db.recipes[r.value.1 := NewRecipe(user, data)]
              && r.value.0.ingredientRows == db.ingredientRows + RowsFor(r.value.1, data.ingredients.value)
              && r.value.0 == db.(recipes := r.value.0.recipes, ingredientRows := r.value.0.ingredientRows,
                                  nextRecipeId := db.nextRecipeId + 1)
  {
    var v := RecipeValidate(db, data);
    if v.Fail? then Err(v.error)
    else
      assert IdsDistinct(data.ingredients.value);
      Create(db, user, data)
  }

  /** On a valid database the checked create fails only in `validate`, so
      never on the database constraint. */
  lemma CreateCheckedSucceeds(db: Db, user: UserId, data: RecipeData)
    requires FieldsValid(db, data, false, None)
    ensures Valid(db) && RecipeValidate(db, data) == Pass ==> CreateChecked(db, user, data).Ok?
    ensures CreateChecked(db, user, data).Err? ==>
              CreateChecked(db, user, data).error != ConstraintViolation || !Valid(db)
  {
    if RecipeValidate(db, data) == Pass {
      assert IdsDistinct(data.ingredients.value);
    }
  }

  /** The recipe a checked create stores, and the recipes it leaves alone. */
  lemma CreatedRecipe(db: Db, user: UserId, data: RecipeData)
    requires FieldsValid(db, data, false, None)
    ensures var r := CreateChecked(db, user, data);
            r.Ok? ==>
              && r.value.1 in r.value.0.recipes
              && r.value.0.recipes[r.value.1].author == user
              && r.value.0.recipes[r.value.1].name == Text.Trim(data.name.value) != ""
              && r.value.0.recipes[r.value.1].text == Text.Trim(data.text.value) != ""
              && r.value.0.recipes[r.value.1].tags == TagSet(data.tags.value)
              && (Valid(db) ==>
                    forall x :: x in db.recipes ==> x in r.value.0.recipes && r.value.0.recipes[x] == db.recipes[x])
  {
    if Valid(db) {
      assert db.nextRecipeId !in db.recipes;
    }
  }

  /** No stored row names the next recipe id. */
  lemma NoRowsForFreshId(db: Db)
    ensures Valid(db) ==> forall iid :: !HasRow(db.ingredientRows, db.nextRecipeId, iid)
  {
  }

  /** `PATCH /recipes/{id}/`: the recipe is looked up, then the sent fields
      are checked (a malformed data URI crashes), then `validate`, which
      needs both `ingredients` and `tags`, then `update`. */
  function PartialUpdateRecipe(db: Db, rid: RecipeId, data: RecipeData): (r: Result<Db>)
    ensures rid !in db.recipes ==> r == Err(NotFound)
    ensures rid in db.recipes && ImageCrashes(data) ==> r == Err(MalformedDataUri)
    ensures rid in db.recipes && !ImageCrashes(data) && !FieldsValid(db, data, true, Some(rid)) ==>
              r == Err(InvalidField)
    ensures rid in db.recipes && FieldsValid(db, data, true, Some(rid)) ==>
              (r.Ok? <==> RecipeValidate(db, data) == Pass)
    ensures rid in db.recipes && FieldsValid(db, data, true, Some(rid)) && !HasListKeys(data) ==>
              r == Err(MissingKey)
    ensures r.Ok? ==>
              && HasListKeys(data)
              && rid in r.value.recipes
              && r.value.recipes[rid] == Patched(db.recipes[rid], data)
              && r.value.recipes[rid].tags == TagSet(data.tags.value)
              && (forall x :: x in db.recipes && x != rid ==> x in r.value.recipes && r.value.recipes[x] == db.recipes[x])
              && (forall row :: row in r.value.ingredientRows && row.recipe == rid <==>
                    row in RowsFor(rid, data.ingredients.value))
              && (forall row :: row in r.value.ingredientRows && row.recipe != rid <==>
                    row in db.ingredientRows && row.recipe != rid)
    ensures r.Err? ==> r.error != ConstraintViolation
  {
    if rid !in db.recipes then Err(NotFound)
    else if ImageCrashes(data) then Err(MalformedDataUri)
    else if !FieldsValid(db, data, true, Some(rid)) then Err(InvalidField)
    else
      match RecipeValidate(db, data)
      case Fail(e) => Err(e)
      case Pass => Update(db, rid, data)
  }

  /** A recipe whose name no other recipe carries keeps the names unique. */
  lemma StoreKeepsNamesUnique(recipes: map<RecipeId, Recipe>, rid: RecipeId, recipe: Recipe)
    requires RecipeNamesUnique(recipes)
    requires forall o :: o in recipes && o != rid ==> recipes[o].name != recipe.name
    ensures RecipeNamesUnique(recipes[rid := recipe])
  {
  }

  /** Fresh rows for one recipe, one per ingredient, keep the rows unique. */
  lemma AddRowsKeepsUnique(rows: set<IngredientRecipe>, rid: RecipeId, items: seq<IngredientAmount>)
    requires IngredientRowsUnique(rows) && IdsDistinct(items)
    requires forall x :: x in rows ==> x.recipe != rid
    ensures IngredientRowsUnique(rows + RowsFor(rid, items))
  {
    var all := rows + RowsFor(rid, items);
    forall x, y | x in all && y in all && x.recipe == y.recipe && x.ingredient == y.ingredient
      ensures x == y
    {
      if x in RowsFor(rid, items) && y in RowsFor(rid, items) {
        var i :| 0 <= i < |items| && x == IngredientRecipe(rid, items[i].ingredient, items[i].amount);
        var j :| 0 <= j < |items| && y == IngredientRecipe(rid, items[j].ingredient, items[j].amount);
        assert i == j;
      }
    }
  }

  /** A created recipe keeps the database valid. */
  lemma CreateKeepsValid(db: Db, user: UserId, data: RecipeData)
    requires Valid(db) && user in db.users
    ensures CreateRecipe(db, user, data).Ok? ==> Valid(CreateRecipe(db, user, data).value.0)
  {
    var r := CreateRecipe(db, user, data);
    if r.Ok? {
      var (d, rid) := r.value;
      assert forall k :: 0 <= k < |data.tags.value| ==> data.tags.value[k] in db.tags;
      assert !NameTaken(db, Text.Trim(data.name.value), None);
      StoreKeepsNamesUnique(db.recipes, rid, d.recipes[rid]);
      AddRowsKeepsUnique(db.ingredientRows, rid, data.ingredients.value);
    }
  }

  /** A partial update keeps the database valid. */
  lemma PartialUpdateKeepsValid(db: Db, rid: RecipeId, data: RecipeData)
    requires Valid(db)
    ensures PartialUpdateRecipe(db, rid, data).Ok? ==> Valid(PartialUpdateRecipe(db, rid, data).value)
  {
    var r := PartialUpdateRecipe(db, rid, data);
    if r.Ok? {
      var d := r.value;
      assert forall k :: 0 <= k < |data.tags.value| ==> data.tags.value[k] in db.tags;
      if data.name.Some? {
        assert !NameTaken(db, Text.Trim(data.name.value), Some(rid));
      }
      StoreKeepsNamesUnique(db.recipes, rid, d.recipes[rid]);
      AddRowsKeepsUnique(RowsNotOf(db.ingredientRows, rid), rid, data.ingredients.value);
    }
  }

  /** A PATCH that leaves out `tags` or `ingredients` is refused: the
      "absent" branches of `update` are not reachable through the view. */
  lemma PatchNeedsBothLists(db: Db, rid: RecipeId, data: RecipeData)
    requires !HasListKeys(data)
    ensures PartialUpdateRecipe(db, rid, data).Err?
  {
  }

  // ---------------------------------------------------------------------
  // Field-level refusals

  /** A name or text of whitespace only is refused as blank, on create and on
      a partial update. */
  lemma BlankFieldsRefused(db: Db, user: UserId, rid: RecipeId, data: RecipeData)
    requires (data.name.Some? && forall k :: 0 <= k < |data.name.value| ==> Text.IsSpace(data.name.value[k])) ||
             (data.text.Some? && forall k :: 0 <= k < |data.text.value| ==> Text.IsSpace(data.text.value[k]))
    ensures CreateRecipe(db, user, data).Err?
    ensures PartialUpdateRecipe(db, rid, data).Err?
  {
  }

  /** The name is unique after trimming: padding an existing recipe's name
      with whitespace does not make a new name. */
  lemma PaddedNameTaken(db: Db, user: UserId, data: RecipeData, other: RecipeId, pre: string, post: string)
    requires other in db.recipes
    requires var core := db.recipes[other].name;
             core != "" ==> !Text.IsSpace(core[0]) && !Text.IsSpace(core[|core| - 1])
    requires forall k :: 0 <= k < |pre| ==> Text.IsSpace(pre[k])
    requires forall k :: 0 <= k < |post| ==> Text.IsSpace(post[k])
    requires data.name == Some(pre + db.recipes[other].name + post)
    ensures CreateRecipe(db, user, data).Err?
  {
    Text.TrimPadded(pre, db.recipes[other].name, post);
    assert NameTaken(db, Text.Trim(data.name.value), None);
  }

  /** A `data:image` value without the `;base64,` marker crashes the
      request, whatever the other fields hold. */
  lemma MissingMarkerCrashes(db: Db, user: UserId, rid: RecipeId, data: RecipeData)
    requires data.image == Some("data:image/png")
    ensures CreateRecipe(db, user, data) == Err(MalformedDataUri)
    ensures rid in db.recipes ==> PartialUpdateRecipe(db, rid, data) == Err(MalformedDataUri)
  {
    ImageField.SplitWithoutMarker("data:image/png");
    assert ImageField.DATA_IMAGE_PREFIX <= "data:image/png";
  }
}
