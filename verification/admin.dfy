/** The admin site: the ingredient formset check of the recipe form, the
    `short_name` and `count_favorites` columns, and `SubscribeAdmin.save_model`. */
module Admin {
  import opened Base
  import opened Models
  import Text
  import Relations

  // ---------------------------------------------------------------------
  // RecipeIngredientFormSet.clean

  /** One inline ingredient form: whether its cleaned data is non-empty, and
      whether its DELETE box is ticked. */
  datatype InlineForm = InlineForm(hasCleanedData: bool, markedDelete: bool)

  /** A form that contributes an ingredient. */
  predicate Kept(f: InlineForm)
  {
    f.hasCleanedData && !f.markedDelete
  }

  /** The formset is accepted exactly when at least one form carries data and
      is not marked for deletion. */
  method CleanFormSet(forms: seq<InlineForm>) returns (r: Outcome)
    ensures r == Pass <==> exists i :: 0 <= i < |forms| && Kept(forms[i])
    ensures r.Fail? ==> r.error == EmptyIngredients
  {
    var count := 0;
    var i := 0;
    while i < |forms|
      invariant 0 <= i <= |forms|
      invariant count >= 0
      invariant count > 0 <==> exists k :: 0 <= k < i && Kept(forms[k])
    {
      if forms[i].hasCleanedData && !forms[i].markedDelete {
        count := count + 1;
      }
      i := i + 1;
    }
    if count < 1 {
      r := Fail(EmptyIngredients);
    } else {
      r := Pass;
    }
  }

  // ---------------------------------------------------------------------
  // List columns

  /** `short_name` of the tag, ingredient and recipe admins: the name cut to
      15 characters. */
  function ShortName(name: string): (r: string)
    ensures r <= name
    ensures |r| == if |name| < 15 then |name| else 15
  {
    Text.Take(name, 15)
  }

  /** The admin column shows what the model's `__str__` shows. */
  lemma ShortNameIsStr(t: Tag, i: Ingredient, rc: Recipe)
    ensures ShortName(t.name) == TagStr(t)
    ensures ShortName(i.name) == IngredientStr(i)
    ensures ShortName(rc.name) == RecipeStr(rc)
  {
  }

  /** `count_favorites`: how many users hold the recipe as a favourite. */
  function CountFavorites(db: Db, rid: RecipeId): (n: nat)
    ensures n == 0 <==> forall p :: p in db.favorites ==> p.recipe != rid
  {
    var fans := Fans(db.favorites, rid);
    assert (exists p :: p in db.favorites && p.recipe == rid) ==> |fans| > 0 by {
      if exists p :: p in db.favorites && p.recipe == rid {
        var p :| p in db.favorites && p.recipe == rid;
        assert p in fans;
      }
    }
    |fans|
  }

  /** A favourite added raises the count by one and a favourite removed
      lowers it by one; the shopping cart leaves it alone. */
  lemma CountFavoritesTracksActions(db: Db, kind: RelationKind, verb: Method, user: UserId, rid: RecipeId)
    requires Relations.UserRecipeAction(db, kind, verb, user, rid).Ok?
    ensures var after := Relations.UserRecipeAction(db, kind, verb, user, rid).value;
            CountFavorites(after, rid) ==
              if kind == ShoppingCart then CountFavorites(db, rid)
              else if verb == Post then CountFavorites(db, rid) + 1
              else CountFavorites(db, rid) - 1
  {
    var after := Relations.UserRecipeAction(db, kind, verb, user, rid).value;
    var p := UserRecipe(user, rid);
    if kind == Favorites {
      if verb == Post {
        FansAdd(db.favorites, p);
      } else {
        FansRemove(db.favorites, p);
      }
    } else {
      assert after.favorites == db.favorites;
    }
  }

  /** The users holding `rid` as a favourite in `fav`. */
  function Fans(fav: set<UserRecipe>, rid: RecipeId): set<UserRecipe>
  {
    set q | q in fav && q.recipe == rid
  }

  /** Adding a new favourite of a recipe adds one fan. */
  lemma FansAdd(fav: set<UserRecipe>, p: UserRecipe)
    requires p !in fav
    ensures |Fans(fav + {p}, p.recipe)| == |Fans(fav, p.recipe)| + 1
  {
    assert Fans(fav + {p}, p.recipe) == Fans(fav, p.recipe) + {p};
  }

  /** Removing a stored favourite of a recipe removes one fan. */
  lemma FansRemove(fav: set<UserRecipe>, p: UserRecipe)
    requires p in fav
    ensures |Fans(fav - {p}, p.recipe)| == |Fans(fav, p.recipe)| - 1
  {
    assert Fans(fav - {p}, p.recipe) == Fans(fav, p.recipe) - {p};
  }

  // ---------------------------------------------------------------------
  // SubscribeAdmin.save_model

  /** `save_model` as written: it refuses a self-subscription and otherwise
      returns without calling `obj.save()`, so the add form stores nothing. */
  function SaveSubscriptionAsWritten(db: Db, user: UserId, author: UserId): (r: Result<Db>)
    ensures r.Err? <==> user == author
    ensures r.Err? ==> r.error == SelfFollow
    ensures r.Ok? ==> r.value == db
  {
    if user == author then Err(SelfFollow) else Ok(db)
  }

  /** The discrepancy: a new, legitimate subscription entered in the admin is
      reported as saved but is not stored. */
  lemma AsWrittenDropsSubscription(db: Db, user: UserId, author: UserId)
    requires user != author && !Subscribed(db, user, author)
    ensures SaveSubscriptionAsWritten(db, user, author).Ok?
    ensures !Subscribed(SaveSubscriptionAsWritten(db, user, author).value, user, author)
  {
  }

  /** `save_model` as intended: refuse a self-subscription, otherwise save the
      row, which the uniqueness constraint may still refuse. */
  function SaveSubscription(db: Db, user: UserId, author: UserId): (r: Result<Db>)
    ensures user == author ==> r == Err(SelfFollow)
    ensures user != author ==> (r.Ok? <==> !Subscribed(db, user, author))
    ensures r.Err? && user != author ==> r.error == ConstraintViolation
    ensures r.Ok? ==> Subscribed(r.value, user, author)
    ensures r.Ok? ==> r.value.subscriptions == db.subscriptions + [Subscribe(db.nextSubscribeId, user, author)]
  {
    if user == author then Err(SelfFollow)
    else
      var r := Relations.InsertSubscription(db, user, author);
      assert r.Ok? ==> Subscribe(db.nextSubscribeId, user, author) in r.value.subscriptions;
      r
  }

  /** The intended `save_model` keeps the invariant and never stores a
      self-subscription. */
  lemma SaveSubscriptionKeepsValid(db: Db, user: UserId, author: UserId)
    requires Valid(db) && user in db.users && author in db.users
    ensures SaveSubscription(db, user, author).Ok? ==>
              && Valid(SaveSubscription(db, user, author).value)
              && (Relations.NoSelfFollow(db) ==> Relations.NoSelfFollow(SaveSubscription(db, user, author).value))
  {
    var r := SaveSubscription(db, user, author);
    if r.Ok? {
      Relations.AppendKeepsValid(db, r.value, user, author);
    }
  }
}
