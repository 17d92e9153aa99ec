/** The serializers' `validate` methods: the business rules checked before a
    relation row is written and before a recipe is saved. */
module Validators {
  import opened Base
  import opened Models

  // ---------------------------------------------------------------------
  // Relations

  /** `FollowSerializer.validate`: on POST, an existing subscription is
      refused first, then a subscription to oneself; other verbs pass. */
  function FollowValidate(db: Db, verb: Method, user: UserId, author: UserId): (r: Outcome)
    ensures verb != Post ==> r == Pass
    ensures verb == Post && Subscribed(db, user, author) ==> r == Fail(AlreadySubscribed)
    ensures verb == Post && !Subscribed(db, user, author) && user == author ==> r == Fail(SelfFollow)
    ensures r == Pass <==> verb != Post || (!Subscribed(db, user, author) && user != author)
  {
    if verb == Post then
      if Subscribed(db, user, author) then Fail(AlreadySubscribed)
      else if user == author then Fail(SelfFollow)
      else Pass
    else Pass
  }

  /** The shared body of the favourite and shopping-cart validators. */
  function CheckUserRecipe(rel: set<UserRecipe>, kind: RelationKind, verb: Method,
                           user: UserId, recipeId: RecipeId): Outcome
  {
    if verb == Post && UserRecipe(user, recipeId) in rel then Fail(AlreadyPresent(kind))
    else if verb == Delete && UserRecipe(user, recipeId) !in rel then Fail(NotPresent(kind))
    else Pass
  }

  /** `FavoriteSerialize.validate`: POST is refused iff the favourite exists,
      DELETE is refused iff it does not; other verbs pass. */
  function FavoriteValidate(db: Db, verb: Method, user: UserId, recipeId: RecipeId): (r: Outcome)
    ensures verb == Post ==> (r == Pass <==> UserRecipe(user, recipeId) !in db.favorites)
    ensures verb == Delete ==> (r == Pass <==> UserRecipe(user, recipeId) in db.favorites)
    ensures verb != Post && verb != Delete ==> r == Pass
    ensures r.Fail? ==> r.error == (if verb == Post then AlreadyPresent(Favorites) else NotPresent(Favorites))
  {
    CheckUserRecipe(db.favorites, Favorites, verb, user, recipeId)
  }

  /** `ListShoppingSerialize.validate`: the same rule over the shopping cart. */
  function CartValidate(db: Db, verb: Method, user: UserId, recipeId: RecipeId): (r: Outcome)
    ensures verb == Post ==> (r == Pass <==> UserRecipe(user, recipeId) !in db.cart)
    ensures verb == Delete ==> (r == Pass <==> UserRecipe(user, recipeId) in db.cart)
    ensures verb != Post && verb != Delete ==> r == Pass
    ensures r.Fail? ==> r.error == (if verb == Post then AlreadyPresent(ShoppingCart) else NotPresent(ShoppingCart))
  {
    CheckUserRecipe(db.cart, ShoppingCart, verb, user, recipeId)
  }

  /** The validator the view of `kind` runs. */
  function RelationValidate(db: Db, kind: RelationKind, verb: Method, user: UserId, recipeId: RecipeId): Outcome
  {
    match kind
    case Favorites => FavoriteValidate(db, verb, user, recipeId)
    case ShoppingCart => CartValidate(db, verb, user, recipeId)
  }

  // ---------------------------------------------------------------------
  // Recipe payloads

  /** One entry of the `ingredients` list: the ingredient primary key and its amount. */
  datatype IngredientAmount = IngredientAmount(ingredient: IngredientId, amount: int)

  /** The recipe write payload after field-level parsing; a key the client
      left out is `None`. */
  datatype RecipeData = RecipeData(
    tags: Option<seq<TagId>>,
    ingredients: Option<seq<IngredientAmount>>,
    name: Option<string>,
    text: Option<string>,
    cookingTime: Option<int>,
    image: Option<string>)

  /** The primary keys in the payload name existing rows, as the related
      fields guarantee before `validate` runs. */
  predicate RefsExist(db: Db, data: RecipeData)
  {
    && (data.tags.Some? ==> forall k :: 0 <= k < |data.tags.value| ==> data.tags.value[k] in db.tags)
    && (data.ingredients.Some? ==>
          forall k :: 0 <= k < |data.ingredients.value| ==> data.ingredients.value[k].ingredient in db.ingredients)
  }

  /** `Tag.objects.filter(name=tag).exists()`: the lookup compares tag names
      with the tag's string form, its name cut to 15 characters. */
  predicate TagKnown(db: Db, t: TagId)
    requires t in db.tags
  {
    exists u :: u in db.tags && db.tags[u].name == TagStr(db.tags[t])
  }

  predicate AllTagsKnown(db: Db, tags: seq<TagId>)
    requires forall k :: 0 <= k < |tags| ==> tags[k] in db.tags
  {
    forall k :: 0 <= k < |tags| ==> TagKnown(db, tags[k])
  }

  /** The ingredient name `get_object_or_404(Ingredient, name=...)` looks
      up: the string form of the submitted ingredient. */
  function LookupName(db: Db, item: IngredientAmount): string
    requires item.ingredient in db.ingredients
  {
    IngredientStr(db.ingredients[item.ingredient])
  }

  /** How many catalogue ingredients carry exactly this name. */
  function NamedCount(db: Db, name: string): nat
  {
    |set i | i in db.ingredients && db.ingredients[i].name == name|
  }

  /** The loop over `ingredients` in `validate`: each lookup must find exactly
      one ingredient, and no looked-up ingredient may repeat. A lookup that
      succeeds is determined by the name, so comparing looked-up names is
      comparing looked-up ingredients. */
  function CheckIngredients(db: Db, items: seq<IngredientAmount>, seen: seq<string>): (r: Outcome)
    requires forall k :: 0 <= k < |items| ==> items[k].ingredient in db.ingredients
    ensures r.Fail? ==> r.error in {NotFound, MultipleFound, DuplicateIngredient}
    decreases |items|
  {
    if |items| == 0 then Pass
    else
      var name := LookupName(db, items[0]);
      var count := NamedCount(db, name);
      if count == 0 then Fail(NotFound)
      else if count > 1 then Fail(MultipleFound)
      else if name in seen then Fail(DuplicateIngredient)
      else CheckIngredients(db, items[1..], seen + [name])
  }

  /** Every lookup finds exactly one ingredient. */
  ghost predicate LookupsResolve(db: Db, items: seq<IngredientAmount>)
    requires forall k :: 0 <= k < |items| ==> items[k].ingredient in db.ingredients
  {
    forall k :: 0 <= k < |items| ==> NamedCount(db, LookupName(db, items[k])) == 1
  }

  /** No two entries look up the same ingredient. */
  ghost predicate LookupsDistinct(db: Db, items: seq<IngredientAmount>)
    requires forall k :: 0 <= k < |items| ==> items[k].ingredient in db.ingredients
  {
    forall i, j :: 0 <= i < j < |items| ==> LookupName(db, items[i]) != LookupName(db, items[j])
  }

  /** The ingredient loop passes exactly when every lookup resolves to one
      ingredient, the looked-up ingredients are pairwise distinct, and none
      was already seen. */
  lemma {:induction false} CheckIngredientsPasses(db: Db, items: seq<IngredientAmount>, seen: seq<string>)
    requires forall k :: 0 <= k < |items| ==> items[k].ingredient in db.ingredients
    ensures CheckIngredients(db, items, seen) == Pass <==>
              && LookupsResolve(db, items)
              && LookupsDistinct(db, items)
              && forall k :: 0 <= k < |items| ==> LookupName(db, items[k]) !in seen
    decreases |items|
  {
    if |items| > 0 {
      var name := LookupName(db, items[0]);
      var rest := items[1..];
      CheckIngredientsPasses(db, rest, seen + [name]);
      assert forall k :: 0 < k < |items| ==> items[k] == rest[k - 1];
      if CheckIngredients(db, items, seen) == Pass {
        assert NamedCount(db, name) == 1 && name !in seen;
        forall i, j | 0 <= i < j < |items|
          ensures LookupName(db, items[i]) != LookupName(db, items[j])
        {
          if i > 0 {
            assert LookupName(db, rest[i - 1]) != LookupName(db, rest[j - 1]);
          } else {
            assert LookupName(db, rest[j - 1]) !in seen + [name];
          }
        }
      }
    }
  }

  /** The error item `j` raises when the loop reaches it: its lookup finds
      no ingredient, or several, or one already looked up (in `seen` or at
      an earlier item); `None` when the item passes. */
  ghost function ItemError(db: Db, items: seq<IngredientAmount>, seen: seq<string>, j: int): Option<Error>
    requires forall k :: 0 <= k < |items| ==> items[k].ingredient in db.ingredients
    requires 0 <= j < |items|
  {
    var name := LookupName(db, items[j]);
    var count := NamedCount(db, name);
    if count == 0 then Some(NotFound)
    else if count > 1 then Some(MultipleFound)
    else if name in seen || exists m :: 0 <= m < j && LookupName(db, items[m]) == name then Some(DuplicateIngredient)
    else None
  }

  /** Item `j` is the first item that raises. */
  ghost predicate FirstFailure(db: Db, items: seq<IngredientAmount>, seen: seq<string>, j: int)
    requires forall k :: 0 <= k < |items| ==> items[k].ingredient in db.ingredients
  {
    && 0 <= j < |items|
    && ItemError(db, items, seen, j).Some?
    && forall k :: 0 <= k < j ==> ItemError(db, items, seen, k).None?
  }

  /** Past the first item, an item raises what it raises in the rest of the
      list once the first item's name counts as seen. */
  lemma ItemErrorShift(db: Db, items: seq<IngredientAmount>, seen: seq<string>)
    requires forall k :: 0 <= k < |items| ==> items[k].ingredient in db.ingredients
    requires |items| > 0
    ensures forall j :: 1 <= j < |items| ==>
              ItemError(db, items, seen, j) == ItemError(db, items[1..], seen + [LookupName(db, items[0])], j - 1)
  {
    var rest := items[1..];
    var seen' := seen + [LookupName(db, items[0])];
    forall j | 1 <= j < |items|
      ensures ItemError(db, items, seen, j) == ItemError(db, rest, seen', j - 1)
    {
      var name := LookupName(db, items[j]);
      assert rest[j - 1] == items[j];
      var before := exists m :: 0 <= m < j && LookupName(db, items[m]) == name;
      var before' := exists m :: 0 <= m < j - 1 && LookupName(db, rest[m]) == name;
      if before {
        var m :| 0 <= m < j && LookupName(db, items[m]) == name;
        if m > 0 {
          assert rest[m - 1] == items[m];
        }
      }
      if before' {
        var m :| 0 <= m < j - 1 && LookupName(db, rest[m]) == name;
        assert items[m + 1] == rest[m];
      }
      assert (name in seen || before) <==> (name in seen' || before');
    }
  }

  /** When the first item passes, the first item to raise is one further
      along than in the rest of the list. */
  lemma FirstFailureShift(db: Db, items: seq<IngredientAmount>, seen: seq<string>)
    requires forall k :: 0 <= k < |items| ==> items[k].ingredient in db.ingredients
    requires |items| > 0 && ItemError(db, items, seen, 0).None?
    ensures forall j :: 1 <= j < |items| ==>
              (FirstFailure(db, items, seen, j) <==>
               FirstFailure(db, items[1..], seen + [LookupName(db, items[0])], j - 1))
  {
    var rest := items[1..];
    var seen' := seen + [LookupName(db, items[0])];
    assert forall k :: 0 <= k < |rest| ==> rest[k] == items[k + 1];
    ItemErrorShift(db, items, seen);
    forall j | 1 <= j < |items|
      ensures FirstFailure(db, items, seen, j) <==> FirstFailure(db, rest, seen', j - 1)
    {
      if FirstFailure(db, items, seen, j) {
        forall k | 0 <= k < j - 1
          ensures ItemError(db, rest, seen', k).None?
        {
          assert ItemError(db, items, seen, k + 1).None?;
        }
      }
      if FirstFailure(db, rest, seen', j - 1) {
        forall k | 0 <= k < j
          ensures ItemError(db, items, seen, k).None?
        {
          if k > 0 {
            assert ItemError(db, rest, seen', k - 1).None?;
          }
        }
      }
    }
  }

  /** The ingredient loop fails with `e` exactly when some item is the first
      to raise and what it raises is `e`: a 404 for a name no ingredient
      carries, `MultipleObjectsReturned` for a name several carry, the
      duplicate error for an ingredient looked up before. */
  lemma {:induction false} CheckIngredientsFails(db: Db, items: seq<IngredientAmount>, seen: seq<string>, e: Error)
    requires forall k :: 0 <= k < |items| ==> items[k].ingredient in db.ingredients
    ensures CheckIngredients(db, items, seen) == Fail(e) <==>
              exists j :: FirstFailure(db, items, seen, j) && ItemError(db, items, seen, j) == Some(e)
    decreases |items|
  {
    if |items| > 0 {
      var name := LookupName(db, items[0]);
      var rest := items[1..];
      var seen' := seen + [name];
      assert forall k :: 0 <= k < |rest| ==> rest[k] == items[k + 1];
      ItemErrorShift(db, items, seen);
      if ItemError(db, items, seen, 0).None? {
        CheckIngredientsFails(db, rest, seen', e);
        assert CheckIngredients(db, items, seen) == CheckIngredients(db, rest, seen');
        FirstFailureShift(db, items, seen);
        if j :| FirstFailure(db, items, seen, j) && ItemError(db, items, seen, j) == Some(e) {
          assert FirstFailure(db, rest, seen', j - 1);
        }
        if j :| FirstFailure(db, rest, seen', j) && ItemError(db, rest, seen', j) == Some(e) {
          assert FirstFailure(db, items, seen, j + 1);
        }
      } else {
        assert FirstFailure(db, items, seen, 0);
        assert CheckIngredients(db, items, seen) == Fail(ItemError(db, items, seen, 0).value);
      }
    }
  }

  /** The same ingredient listed twice, whose lookup resolves, is refused as
      a duplicate. */
  lemma RepeatedIngredientRefused(db: Db, items: seq<IngredientAmount>)
    requires forall k :: 0 <= k < |items| ==> items[k].ingredient in db.ingredients
    requires |items| >= 2 && items[0].ingredient == items[1].ingredient
    requires NamedCount(db, LookupName(db, items[0])) == 1
    ensures CheckIngredients(db, items, []) == Fail(DuplicateIngredient)
  {
    assert items[1..][0] == items[1];
  }

  /** Distinct looked-up names imply distinct submitted ingredients. */
  lemma DistinctLookupsDistinctIds(db: Db, items: seq<IngredientAmount>)
    requires forall k :: 0 <= k < |items| ==> items[k].ingredient in db.ingredients
    requires LookupsDistinct(db, items)
    ensures forall i, j :: 0 <= i < j < |items| ==> items[i].ingredient != items[j].ingredient
  {
    forall i, j | 0 <= i < j < |items|
      ensures items[i].ingredient != items[j].ingredient
    {
      assert LookupName(db, items[i]) != LookupName(db, items[j]);
    }
  }

  /** Both keys are present in the payload. */
  predicate HasListKeys(data: RecipeData)
  {
    data.ingredients.Some? && data.tags.Some?
  }

  /** `RecipeWriteSerializer.validate`. It reads both `data["ingredients"]`
      and `data["tags"]` before anything else, then checks in order: the tag
      list is not empty, every tag's string form names a tag, the ingredient
      list is not empty, every ingredient lookup succeeds and no looked-up
      ingredient repeats. */
  function RecipeValidate(db: Db, data: RecipeData): (r: Outcome)
    requires RefsExist(db, data)
    ensures !HasListKeys(data) ==> r == Fail(MissingKey)
    ensures r == Fail(EmptyTags) <==> HasListKeys(data) && |data.tags.value| == 0
    ensures r == Fail(UnknownTag) <==>
              HasListKeys(data) && |data.tags.value| > 0 && !AllTagsKnown(db, data.tags.value)
    ensures r == Fail(EmptyIngredients) <==>
              && HasListKeys(data) && |data.tags.value| > 0 && AllTagsKnown(db, data.tags.value)
              && |data.ingredients.value| == 0
    ensures r == Pass <==>
              && HasListKeys(data)
              && |data.tags.value| > 0 && AllTagsKnown(db, data.tags.value)
              && |data.ingredients.value| > 0
              && LookupsResolve(db, data.ingredients.value)
              && LookupsDistinct(db, data.ingredients.value)
    ensures r == Pass ==>
              forall i, j :: 0 <= i < j < |data.ingredients.value| ==>
                data.ingredients.value[i].ingredient != data.ingredients.value[j].ingredient
  {
    if !HasListKeys(data) then Fail(MissingKey)
    else
      var ingredients := data.ingredients.value;
      var tags := data.tags.value;
      if |tags| == 0 then Fail(EmptyTags)
      else if !AllTagsKnown(db, tags) then Fail(UnknownTag)
      else if |ingredients| == 0 then Fail(EmptyIngredients)
      else
        CheckIngredientsPasses(db, ingredients, []);
        var r := CheckIngredients(db, ingredients, []);
        if r == Pass then
          DistinctLookupsDistinctIds(db, ingredients);
          r
        else r
  }

  /** Once the list keys and the tags pass, `validate` fails with `e`
      exactly when the ingredient loop does: at the first item that raises,
      with what that item raises. */
  lemma RecipeValidateIngredientError(db: Db, data: RecipeData, e: Error)
    requires RefsExist(db, data)
    requires HasListKeys(data) && |data.tags.value| > 0 && AllTagsKnown(db, data.tags.value)
    requires |data.ingredients.value| > 0
    ensures RecipeValidate(db, data) == Fail(e) <==>
              exists j :: FirstFailure(db, data.ingredients.value, [], j) &&
                          ItemError(db, data.ingredients.value, [], j) == Some(e)
  {
    CheckIngredientsFails(db, data.ingredients.value, [], e);
  }

  /** A payload with valid tags that lists one resolvable ingredient twice in
      a row fails `validate` as a duplicate. */
  lemma RepeatedIngredientInPayload(db: Db, data: RecipeData)
    requires RefsExist(db, data)
    requires HasListKeys(data) && |data.tags.value| > 0 && AllTagsKnown(db, data.tags.value)
    requires |data.ingredients.value| >= 2
    requires data.ingredients.value[0].ingredient == data.ingredients.value[1].ingredient
    requires NamedCount(db, LookupName(db, data.ingredients.value[0])) == 1
    ensures RecipeValidate(db, data) == Fail(DuplicateIngredient)
  {
    RepeatedIngredientRefused(db, data.ingredients.value);
  }
}
