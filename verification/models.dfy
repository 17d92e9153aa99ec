/** The recipe catalogue and its relations: one datatype per model class,
    the whole database as one immutable value `Db`, the declared value bounds
    and uniqueness constraints as the invariant `Valid`, the `__str__`
    renderings, and the `on_delete=CASCADE` deletions. */
module Models {
  import opened Base
  import Text

  const CHAR_MAX_L: nat := 200
  const SLUG_MAX_L: nat := 60
  const STR_MAX_L: nat := 15

  const MIN_AMOUNT: int := 1
  const MAX_AMOUNT: int := 999
  const MIN_COOKING_TIME: int := 1
  const MAX_COOKING_TIME: int := 48

  /** Primary keys. Users are opaque: the model only needs their ids. */
  type UserId = nat
  type TagId = nat
  type IngredientId = nat
  type RecipeId = nat
  type SubscribeId = nat

  datatype Tag = Tag(name: string, color: string, slug: string)

  datatype Ingredient = Ingredient(name: string, measurementUnit: string)

  /** A recipe row together with its many-to-many tag set. */
  datatype Recipe = Recipe(
    author: UserId,
    name: string,
    image: string,
    text: string,
    tags: set<TagId>,
    cookingTime: int)

  /** The through row carrying the amount of one ingredient in one recipe. */
  datatype IngredientRecipe = IngredientRecipe(recipe: RecipeId, ingredient: IngredientId, amount: int)

  /** A subscription row; `id` is the auto-increment primary key. */
  datatype Subscribe = Subscribe(id: SubscribeId, user: UserId, author: UserId)

  /** A row of the abstract `AbsModel`: a favourite or a shopping-cart entry. */
  datatype UserRecipe = UserRecipe(user: UserId, recipe: RecipeId)

  /** The database. Subscriptions are kept in primary-key order; new primary
      keys come from the `next...` counters, as an auto-increment column does. */
  datatype Db = Db(
    users: set<UserId>,
    tags: map<TagId, Tag>,
    ingredients: map<IngredientId, Ingredient>,
    recipes: map<RecipeId, Recipe>,
    nextRecipeId: RecipeId,
    ingredientRows: set<IngredientRecipe>,
    subscriptions: seq<Subscribe>,
    nextSubscribeId: SubscribeId,
    favorites: set<UserRecipe>,
    cart: set<UserRecipe>)

  // ---------------------------------------------------------------------
  // Field validators and constraints

  predicate AmountValid(amount: int)
  {
    MIN_AMOUNT <= amount <= MAX_AMOUNT
  }

  predicate CookingTimeValid(minutes: int)
  {
    MIN_COOKING_TIME <= minutes <= MAX_COOKING_TIME
  }

  predicate TagValid(t: Tag)
  {
    |t.name| <= CHAR_MAX_L && |t.slug| <= SLUG_MAX_L
  }

  predicate IngredientValid(i: Ingredient)
  {
    |i.name| <= CHAR_MAX_L && |i.measurementUnit| <= CHAR_MAX_L
  }

  /** Tag name and tag slug are each unique; colour is not. */
  ghost predicate TagsUnique(tags: map<TagId, Tag>)
  {
    forall a, b :: a in tags && b in tags && a != b ==>
      tags[a].name != tags[b].name && tags[a].slug != tags[b].slug
  }

  /** Recipe names are unique. Ingredient names are not. */
  ghost predicate RecipeNamesUnique(recipes: map<RecipeId, Recipe>)
  {
    forall a, b :: a in recipes && b in recipes && a != b ==> recipes[a].name != recipes[b].name
  }

  /** `unique_ingredient_recipe`: one row per (recipe, ingredient). */
  ghost predicate IngredientRowsUnique(rows: set<IngredientRecipe>)
  {
    forall x, y :: x in rows && y in rows && x.recipe == y.recipe && x.ingredient == y.ingredient ==> x == y
  }

  ghost predicate IdsAscending(subs: seq<Subscribe>)
  {
    forall i, j :: 0 <= i < j < |subs| ==> subs[i].id < subs[j].id
  }

  /** `unique_follow`: two rows naming the same (user, author) are one row.
      Nothing here forbids `user == author`. */
  ghost predicate SubscriptionsUnique(subs: seq<Subscribe>)
  {
    forall x, y :: x in subs && y in subs && x.user == y.user && x.author == y.author ==> x == y
  }

  ghost predicate CatalogValid(db: Db)
  {
    && (forall t :: t in db.tags ==> TagValid(db.tags[t]))
    && TagsUnique(db.tags)
    && (forall i :: i in db.ingredients ==> IngredientValid(db.ingredients[i]))
  }

  ghost predicate RecipesValid(db: Db)
  {
    && (forall rid :: rid in db.recipes ==>
          && rid < db.nextRecipeId
          && db.recipes[rid].author in db.users
          && db.recipes[rid].tags <= db.tags.Keys
          && |db.recipes[rid].name| <= CHAR_MAX_L
          && CookingTimeValid(db.recipes[rid].cookingTime))
    && RecipeNamesUnique(db.recipes)
  }

  ghost predicate RowsValid(db: Db)
  {
    && (forall row :: row in db.ingredientRows ==>
          row.recipe in db.recipes && row.ingredient in db.ingredients && AmountValid(row.amount))
    && IngredientRowsUnique(db.ingredientRows)
  }

  ghost predicate SubscriptionsValid(db: Db)
  {
    && IdsAscending(db.subscriptions)
    && SubscriptionsUnique(db.subscriptions)
    && (forall s :: s in db.subscriptions ==>
          s.id < db.nextSubscribeId && s.user in db.users && s.author in db.users)
  }

  ghost predicate RelationValid(db: Db, rel: set<UserRecipe>)
  {
    forall p :: p in rel ==> p.user in db.users && p.recipe in db.recipes
  }

  /** Every declared bound, uniqueness constraint and foreign key holds. */
  ghost predicate Valid(db: Db)
  {
    && CatalogValid(db)
    && RecipesValid(db)
    && RowsValid(db)
    && SubscriptionsValid(db)
    && RelationValid(db, db.favorites)
    && RelationValid(db, db.cart)
  }

  // ---------------------------------------------------------------------
  // The two user/recipe relations share one shape

  function Relation(db: Db, kind: RelationKind): set<UserRecipe>
  {
    match kind
    case Favorites => db.favorites
    case ShoppingCart => db.cart
  }

  function WithRelation(db: Db, kind: RelationKind, rel: set<UserRecipe>): (r: Db)
    ensures Relation(r, kind) == rel
    ensures r == db.(favorites := r.favorites, cart := r.cart)
    ensures forall k :: k != kind ==> Relation(r, k) == Relation(db, k)
  {
    match kind
    case Favorites => db.(favorites := rel)
    case ShoppingCart => db.(cart := rel)
  }

  /** The subscription rows that pass `keep`, in their stored order. */
  function KeepSubscriptions(subs: seq<Subscribe>, keep: Subscribe -> bool): (r: seq<Subscribe>)
    ensures forall s :: s in r <==> s in subs && keep(s)
    ensures IdsAscending(subs) ==> IdsAscending(r)
    decreases |subs|
  {
    if |subs| == 0 then []
    else
      var rest := KeepSubscriptions(subs[1..], keep);
      AscendingTail(subs);
      if keep(subs[0]) then AscendingCons(subs[0], rest); [subs[0]] + rest else rest
  }

  /** The rows after the first of an ascending sequence are ascending and all
      carry larger keys. */
  lemma AscendingTail(subs: seq<Subscribe>)
    requires |subs| > 0
    ensures IdsAscending(subs) ==> IdsAscending(subs[1..])
    ensures IdsAscending(subs) ==> forall s :: s in subs[1..] ==> subs[0].id < s.id
  {
    if IdsAscending(subs) {
      forall i, j | 0 <= i < j < |subs[1..]|
        ensures subs[1..][i].id < subs[1..][j].id
      {
        assert subs[1..][i] == subs[i + 1] && subs[1..][j] == subs[j + 1];
      }
      forall s | s in subs[1..]
        ensures subs[0].id < s.id
      {
        var k :| 0 <= k < |subs[1..]| && subs[1..][k] == s;
        assert subs[k + 1] == s;
      }
    }
  }

  /** A row whose key is below every key of an ascending sequence can lead it. */
  lemma AscendingCons(x: Subscribe, rest: seq<Subscribe>)
    ensures IdsAscending(rest) && (forall s :: s in rest ==> x.id < s.id) ==> IdsAscending([x] + rest)
  {
    if IdsAscending(rest) && (forall s :: s in rest ==> x.id < s.id) {
      forall i, j | 0 <= i < j < |[x] + rest|
        ensures ([x] + rest)[i].id < ([x] + rest)[j].id
      {
        assert ([x] + rest)[j] == rest[j - 1];
        if i > 0 {
          assert ([x] + rest)[i] == rest[i - 1];
        }
      }
    }
  }

  /** The id of the row for (user, author), as `get_object_or_404` finds it. */
  function FindSubscription(subs: seq<Subscribe>, user: UserId, author: UserId): (r: Option<SubscribeId>)
    ensures r.None? <==> forall s :: s in subs ==> s.user != user || s.author != author
    ensures r.Some? ==> Subscribe(r.value, user, author) in subs
    decreases |subs|
  {
    if |subs| == 0 then None
    else if subs[0].user == user && subs[0].author == author then Some(subs[0].id)
    else FindSubscription(subs[1..], user, author)
  }

  /** The pair (user, author) is stored as a subscription. */
  predicate Subscribed(db: Db, user: UserId, author: UserId)
  {
    FindSubscription(db.subscriptions, user, author).Some?
  }

  // ---------------------------------------------------------------------
  // __str__

  /** The string form of a named object: its name cut to `STR_MAX_L`
      characters. */
  function ShortStr(name: string): (r: string)
    ensures r <= name && |r| <= STR_MAX_L
    ensures |name| <= STR_MAX_L ==> r == name
    ensures |name| > STR_MAX_L ==> |r| == STR_MAX_L
  {
    Text.Take(name, STR_MAX_L)
  }

  /** `Tag.__str__`. */
  function TagStr(t: Tag): string
  {
    ShortStr(t.name)
  }

  /** `Ingredient.__str__`. */
  function IngredientStr(i: Ingredient): string
  {
    ShortStr(i.name)
  }

  /** `Recipe.__str__`. */
  function RecipeStr(r: Recipe): string
  {
    ShortStr(r.name)
  }

  /** `IngredientRecipe.__str__`: the amount in decimal, cut to `STR_MAX_L`
      characters. A valid amount has at most three digits, so it is never
      cut and reads back as the amount. */
  function IngredientRecipeStr(row: IngredientRecipe): (r: string)
    ensures |r| <= STR_MAX_L
    ensures r <= Text.IntDecimal(row.amount)
    ensures AmountValid(row.amount) ==> Text.IsDigits(r) && Text.ParseDecimal(r) == row.amount
  {
    ValidAmountDigits(row.amount);
    Text.Take(Text.IntDecimal(row.amount), STR_MAX_L)
  }

  lemma ValidAmountDigits(amount: int)
    ensures AmountValid(amount) ==> |Text.Decimal(amount)| <= 3
    ensures AmountValid(amount) ==> Text.ParseDecimal(Text.Decimal(amount)) == amount
  {
    if AmountValid(amount) {
      ThreeDigitsAtMost(amount);
      Text.DecimalRoundTrip(amount);
    }
  }

  lemma {:induction false} ThreeDigitsAtMost(n: nat)
    requires n <= 999
    ensures |Text.Decimal(n)| <= 3
  {
    if n >= 10 {
      assert n / 10 < 100;
      if n / 10 >= 10 {
        assert n / 10 / 10 < 10;
      }
    }
  }

  // ---------------------------------------------------------------------
  // Cascading deletes

  /** Deleting recipes removes their ingredient rows, favourites and cart
      rows; nothing else changes. */
  function DeleteRecipes(db: Db, gone: set<RecipeId>): (r: Db)
    ensures r.recipes.Keys == db.recipes.Keys - gone
    ensures forall rid :: rid in r.recipes ==> r.recipes[rid] == db.recipes[rid]
    ensures forall row :: row in r.ingredientRows <==> row in db.ingredientRows && row.recipe !in gone
    ensures forall p :: p in r.favorites <==> p in db.favorites && p.recipe !in gone
    ensures forall p :: p in r.cart <==> p in db.cart && p.recipe !in gone
    ensures r.users == db.users && r.tags == db.tags && r.ingredients == db.ingredients
    ensures r.subscriptions == db.subscriptions && r.nextRecipeId == db.nextRecipeId
    ensures r.nextSubscribeId == db.nextSubscribeId
    ensures Valid(db) ==> Valid(r)
  {
    db.(recipes := (map rid | rid in db.recipes && rid !in gone :: db.recipes[rid]),
        ingredientRows := (set row | row in db.ingredientRows && row.recipe !in gone),
        favorites := (set p | p in db.favorites && p.recipe !in gone),
        cart := (set p | p in db.cart && p.recipe !in gone))
  }

  /** Deleting one recipe (`IngredientRecipe.recipe`, `AbsModel.recipe`). */
  function DeleteRecipe(db: Db, rid: RecipeId): (r: Db)
    ensures rid !in r.recipes
    ensures forall x :: x in r.recipes <==> x in db.recipes && x != rid
    ensures forall row :: row in r.ingredientRows <==> row in db.ingredientRows && row.recipe != rid
    ensures forall p :: p in r.favorites <==> p in db.favorites && p.recipe != rid
    ensures forall p :: p in r.cart <==> p in db.cart && p.recipe != rid
    ensures forall x :: x in r.recipes ==> r.recipes[x] == db.recipes[x]
    ensures r.users == db.users && r.subscriptions == db.subscriptions
    ensures r == db.(recipes := r.recipes, ingredientRows := r.ingredientRows, favorites := r.favorites, cart := r.cart)
    ensures Valid(db) ==> Valid(r)
  {
    DeleteRecipes(db, {rid})
  }

  /** The recipe exists and `uid` wrote it. */
  predicate WrittenBy(db: Db, rid: RecipeId, uid: UserId)
  {
    rid in db.recipes && db.recipes[rid].author == uid
  }

  /** Deleting a user removes the recipes they wrote (with those recipes'
      rows), their favourites and cart rows, and every subscription in which
      they are the follower or the author. */
  function DeleteUser(db: Db, uid: UserId): (r: Db)
    ensures r.users == db.users - {uid}
    ensures forall rid :: rid in r.recipes <==> rid in db.recipes && db.recipes[rid].author != uid
    ensures forall rid :: rid in r.recipes ==> r.recipes[rid] == db.recipes[rid]
    ensures forall s :: s in r.subscriptions <==> s in db.subscriptions && s.user != uid && s.author != uid
    ensures forall p :: p in r.favorites <==>
              p in db.favorites && p.user != uid && !WrittenBy(db, p.recipe, uid)
    ensures forall p :: p in r.cart <==>
              p in db.cart && p.user != uid && !WrittenBy(db, p.recipe, uid)
    ensures forall row :: row in r.ingredientRows <==>
              row in db.ingredientRows && !WrittenBy(db, row.recipe, uid)
    ensures r == db.(users := r.users, recipes := r.recipes, ingredientRows := r.ingredientRows,
                     subscriptions := r.subscriptions, favorites := r.favorites, cart := r.cart)
    ensures Valid(db) ==> Valid(r)
  {
    var owned := set rid | rid in db.recipes && db.recipes[rid].author == uid;
    var d := DeleteRecipes(db, owned);
    var r := d.(users := d.users - {uid},
                subscriptions := KeepSubscriptions(d.subscriptions, (s: Subscribe) => s.user != uid && s.author != uid),
                favorites := (set p | p in d.favorites && p.user != uid),
                cart := (set p | p in d.cart && p.user != uid));
    DropUserKeepsValid(d, r, uid);
    r
  }

  /** Once the user's recipes are gone, dropping the user with their rows
      keeps the invariant. */
  lemma DropUserKeepsValid(d: Db, r: Db, uid: UserId)
    requires forall rid :: rid in d.recipes ==> d.recipes[rid].author != uid
    requires r == d.(users := d.users - {uid},
                     subscriptions := KeepSubscriptions(d.subscriptions, (s: Subscribe) => s.user != uid && s.author != uid),
                     favorites := (set p | p in d.favorites && p.user != uid),
                     cart := (set p | p in d.cart && p.user != uid))
    ensures Valid(d) ==> Valid(r)
  {
  }

  /** Deleting an ingredient removes the rows that use it
      (`IngredientRecipe.ingredient`). */
  function DeleteIngredient(db: Db, iid: IngredientId): (r: Db)
    ensures r.ingredients.Keys == db.ingredients.Keys - {iid}
    ensures forall row :: row in r.ingredientRows <==> row in db.ingredientRows && row.ingredient != iid
    ensures forall i :: i in r.ingredients ==> r.ingredients[i] == db.ingredients[i]
    ensures r.recipes == db.recipes && r.favorites == db.favorites && r.cart == db.cart
    ensures r == db.(ingredients := r.ingredients, ingredientRows := r.ingredientRows)
    ensures Valid(db) ==> Valid(r)
  {
    db.(ingredients := (map i | i in db.ingredients && i != iid :: db.ingredients[i]),
        ingredientRows := (set row | row in db.ingredientRows && row.ingredient != iid))
  }

  /** Deleting a tag removes it from every recipe's tag set. */
  function DeleteTag(db: Db, tid: TagId): (r: Db)
    ensures r.tags.Keys == db.tags.Keys - {tid}
    ensures r.recipes.Keys == db.recipes.Keys
    ensures forall rid :: rid in r.recipes ==> r.recipes[rid].tags == db.recipes[rid].tags - {tid}
    ensures forall rid :: rid in r.recipes ==> r.recipes[rid].name == db.recipes[rid].name
    ensures forall rid :: rid in r.recipes ==> r.recipes[rid] == db.recipes[rid].(tags := r.recipes[rid].tags)
    ensures forall t :: t in r.tags ==> r.tags[t] == db.tags[t]
    ensures r == db.(tags := r.tags, recipes := r.recipes)
    ensures Valid(db) ==> Valid(r)
  {
    db.(tags := (map t | t in db.tags && t != tid :: db.tags[t]),
        recipes := (map rid | rid in db.recipes :: db.recipes[rid].(tags := db.recipes[rid].tags - {tid})))
  }
}
