/** The query filters of the API (`RecipeFilter`, `IngredientFilter`). A
    filter whose value is empty is skipped, as django-filter does; the
    filters apply in declaration order, each narrowing the queryset. */
module Filters {
  import opened Base
  import opened Models
  import Text
  import Relations

  /** A query-string value that django-filter does not skip. */
  predicate Given(v: Option<string>)
  {
    v.Some? && v.value != ""
  }

  /** The `RecipeFilter` parameters; `author` is the already parsed id. */
  datatype RecipeQuery = RecipeQuery(
    isFavorited: Option<string>,
    isInShoppingCart: Option<string>,
    author: Option<UserId>,
    tags: seq<string>)

  /** `queryset.filter(...)`: the rows satisfying `p`, in queryset order. */
  function Keep(qs: seq<nat>, p: nat -> bool): (r: seq<nat>)
    ensures forall x :: x in r <==> x in qs && p(x)
    ensures |r| <= |qs|
    decreases |qs|
  {
    if |qs| == 0 then []
    else
      var rest := Keep(qs[1..], p);
      assert forall x :: x in qs <==> x == qs[0] || x in qs[1..];
      if p(qs[0]) then [qs[0]] + rest else rest
  }

  /** Two filters one after the other are one filter on the conjunction. */
  lemma {:induction false} KeepKeep(qs: seq<nat>, p: nat -> bool, q: nat -> bool)
    ensures Keep(Keep(qs, p), q) == Keep(qs, Both(p, q))
    decreases |qs|
  {
    if |qs| > 0 {
      KeepKeep(qs[1..], p, q);
      var rest := Keep(qs[1..], p);
      if p(qs[0]) {
        assert ([qs[0]] + rest)[1..] == rest;
      }
    }
  }

  // ---------------------------------------------------------------------
  // RecipeFilter

  predicate InRelation(rel: set<UserRecipe>, user: UserId, rid: RecipeId)
  {
    UserRecipe(user, rid) in rel
  }

  predicate ByAuthor(db: Db, author: UserId, rid: RecipeId)
  {
    rid in db.recipes && db.recipes[rid].author == author
  }

  /** `tags__slug` in the sent values: some tag of the recipe has one of the
      slugs (`AllValuesMultipleFilter` ORs the values). */
  predicate HasTagSlug(db: Db, slugs: seq<string>, rid: RecipeId)
  {
    rid in db.recipes && exists t :: t in db.recipes[rid].tags && t in db.tags && db.tags[t].slug in slugs
  }

  /** The choices of `AllValuesMultipleFilter`: the slugs of tags that some
      recipe carries. */
  function SlugChoices(db: Db): set<string>
  {
    set rid, t | rid in db.recipes && t in db.recipes[rid].tags && t in db.tags :: db.tags[t].slug
  }

  /** Every sent slug is one of the choices; otherwise the filter form is
      invalid. */
  predicate TagsChoiceValid(db: Db, tags: seq<string>)
  {
    forall k :: 0 <= k < |tags| ==> tags[k] in SlugChoices(db)
  }

  /** What a recipe must satisfy to be listed: the reference definition the
      filter chain is compared with. The favourite and cart restrictions apply
      to authenticated users only and whatever the sent value is. */
  predicate Matches(db: Db, who: Relations.Requester, q: RecipeQuery, rid: RecipeId)
  {
    && (Given(q.isFavorited) && who.Authenticated? ==> InRelation(db.favorites, who.id, rid))
    && (Given(q.isInShoppingCart) && who.Authenticated? ==> InRelation(db.cart, who.id, rid))
    && (q.author.Some? ==> ByAuthor(db, q.author.value, rid))
    && (|q.tags| > 0 ==> HasTagSlug(db, q.tags, rid))
  }

  /** One step of the chain: apply `p` when `on`, otherwise leave `qs`. */
  function Narrow(qs: seq<nat>, on: bool, p: nat -> bool): seq<nat>
  {
    if on then Keep(qs, p) else qs
  }

  function RelationTest(rel: set<UserRecipe>, user: UserId): nat -> bool
  {
    (x: nat) => InRelation(rel, user, x)
  }

  function AuthorTest(db: Db, author: UserId): nat -> bool
  {
    (x: nat) => ByAuthor(db, author, x)
  }

  function TagTest(db: Db, slugs: seq<string>): nat -> bool
  {
    (x: nat) => HasTagSlug(db, slugs, x)
  }

  function MatchTest(db: Db, who: Relations.Requester, q: RecipeQuery): nat -> bool
  {
    (x: nat) => Matches(db, who, q, x)
  }

  function Guarded(on: bool, p: nat -> bool): nat -> bool
  {
    (x: nat) => on ==> p(x)
  }

  function Both(p: nat -> bool, q: nat -> bool): nat -> bool
  {
    (x: nat) => p(x) && q(x)
  }

  /** The filter chain with the relation lookups the models define
      (`recipes_favorite_recipe`, `recipes_listshopping_recipe`). */
  function FilterRecipes(db: Db, who: Relations.Requester, q: RecipeQuery, qs: seq<RecipeId>)
    : (r: Result<seq<RecipeId>>)
    ensures r.Err? <==> !TagsChoiceValid(db, q.tags)
    ensures r.Err? ==> r.error == InvalidField
    ensures r.Ok? ==> forall x :: x in r.value <==> x in qs && Matches(db, who, q, x)
  {
    if !TagsChoiceValid(db, q.tags) then Err(InvalidField)
    else
      var auth := who.Authenticated?;
      var user := if auth then who.id else 0;
      var s1 := Narrow(qs, Given(q.isFavorited) && auth, RelationTest(db.favorites, user));
      var s2 := Narrow(s1, Given(q.isInShoppingCart) && auth, RelationTest(db.cart, user));
      var s3 := Narrow(s2, q.author.Some?, AuthorTest(db, if q.author.Some? then q.author.value else 0));
      var s4 := Narrow(s3, |q.tags| > 0, TagTest(db, q.tags));
      Ok(s4)
  }

  /** The four guarded steps of the chain, conjoined. */
  function Chain(db: Db, who: Relations.Requester, q: RecipeQuery): nat -> bool
  {
    var auth := who.Authenticated?;
    var user := if auth then who.id else 0;
    Both(Both(Both(Guarded(Given(q.isFavorited) && auth, RelationTest(db.favorites, user)),
                   Guarded(Given(q.isInShoppingCart) && auth, RelationTest(db.cart, user))),
              Guarded(q.author.Some?, AuthorTest(db, if q.author.Some? then q.author.value else 0))),
         Guarded(|q.tags| > 0, TagTest(db, q.tags)))
  }

  lemma ChainIsMatch(db: Db, who: Relations.Requester, q: RecipeQuery, x: nat)
    ensures Chain(db, who, q)(x) == MatchTest(db, who, q)(x)
  {
  }

  /** The chain lists exactly the matching recipes, in queryset order. */
  lemma FilterRecipesIsKeepMatches(db: Db, who: Relations.Requester, q: RecipeQuery, qs: seq<RecipeId>)
    requires TagsChoiceValid(db, q.tags)
    ensures FilterRecipes(db, who, q, qs) == Ok(Keep(qs, MatchTest(db, who, q)))
  {
    ChainIsKeep(db, who, q, qs);
    forall x: nat
      ensures Chain(db, who, q)(x) == MatchTest(db, who, q)(x)
    {
      ChainIsMatch(db, who, q, x);
    }
    KeepSamePredicate(qs, Chain(db, who, q), MatchTest(db, who, q));
  }

  lemma ChainIsKeep(db: Db, who: Relations.Requester, q: RecipeQuery, qs: seq<RecipeId>)
    requires TagsChoiceValid(db, q.tags)
    ensures FilterRecipes(db, who, q, qs) == Ok(Keep(qs, Chain(db, who, q)))
  {
    var auth := who.Authenticated?;
    var user := if auth then who.id else 0;
    var on1, t1 := Given(q.isFavorited) && auth, RelationTest(db.favorites, user);
    var on2, t2 := Given(q.isInShoppingCart) && auth, RelationTest(db.cart, user);
    var on3, t3 := q.author.Some?, AuthorTest(db, if q.author.Some? then q.author.value else 0);
    var on4, t4 := |q.tags| > 0, TagTest(db, q.tags);
    var g1, g2, g3, g4 := Guarded(on1, t1), Guarded(on2, t2), Guarded(on3, t3), Guarded(on4, t4);
    var s1 := Narrow(qs, on1, t1);
    var s2 := Narrow(s1, on2, t2);
    var s3 := Narrow(s2, on3, t3);
    var s4 := Narrow(s3, on4, t4);
    assert FilterRecipes(db, who, q, qs) == Ok(s4);
    NarrowIsKeep(qs, on1, t1);
    NarrowIsKeep(s1, on2, t2);
    KeepKeep(qs, g1, g2);
    NarrowIsKeep(s2, on3, t3);
    KeepKeep(qs, Both(g1, g2), g3);
    NarrowIsKeep(s3, on4, t4);
    KeepKeep(qs, Both(Both(g1, g2), g3), g4);
    assert Chain(db, who, q) == Both(Both(Both(g1, g2), g3), g4);
  }

  /** A skipped step is a filter that keeps everything. */
  lemma NarrowIsKeep(qs: seq<nat>, on: bool, p: nat -> bool)
    ensures Narrow(qs, on, p) == Keep(qs, Guarded(on, p))
  {
    if !on {
      KeepAll(qs, Guarded(on, p));
    } else {
      KeepSamePredicate(qs, p, Guarded(on, p));
    }
  }

  lemma {:induction false} KeepAll(qs: seq<nat>, p: nat -> bool)
    requires forall x :: p(x)
    ensures Keep(qs, p) == qs
    decreases |qs|
  {
    if |qs| > 0 {
      KeepAll(qs[1..], p);
      assert [qs[0]] + qs[1..] == qs;
    }
  }

  lemma {:induction false} KeepSamePredicate(qs: seq<nat>, p: nat -> bool, q: nat -> bool)
    requires forall x :: p(x) == q(x)
    ensures Keep(qs, p) == Keep(qs, q)
    decreases |qs|
  {
    if |qs| > 0 {
      KeepSamePredicate(qs[1..], p, q);
    }
  }

  /** The sent value of `is_favorited` and `is_in_shopping_cart` does not
      matter: `0` narrows the list exactly as `1` does. */
  lemma FlagValueIgnored(db: Db, who: Relations.Requester, q: RecipeQuery, qs: seq<RecipeId>, v: string, w: string)
    requires v != "" && w != ""
    ensures FilterRecipes(db, who, q.(isFavorited := Some(v)), qs) == FilterRecipes(db, who, q.(isFavorited := Some(w)), qs)
    ensures FilterRecipes(db, who, q.(isInShoppingCart := Some(v)), qs) == FilterRecipes(db, who, q.(isInShoppingCart := Some(w)), qs)
  {
  }

  /** For an anonymous visitor the relation flags change nothing. */
  lemma AnonymousIgnoresFlags(db: Db, q: RecipeQuery, qs: seq<RecipeId>)
    ensures FilterRecipes(db, Relations.Anonymous, q, qs) ==
            FilterRecipes(db, Relations.Anonymous, q.(isFavorited := None, isInShoppingCart := None), qs)
  {
  }

  // ---------------------------------------------------------------------
  // The relation lookups as written

  /** `RecipeFilter` as written: `recipe_favorite__user` and
      `list_shopping_recipe__user` name no relation of `Recipe` (the related
      names are `recipes_favorite_recipe` and `recipes_listshopping_recipe`),
      so either restriction, once it applies, raises a `FieldError`. */
  function FilterRecipesAsWritten(db: Db, who: Relations.Requester, q: RecipeQuery, qs: seq<RecipeId>)
    : (r: Result<seq<RecipeId>>)
    ensures !TagsChoiceValid(db, q.tags) ==> r == Err(InvalidField)
    ensures TagsChoiceValid(db, q.tags) ==>
              (r == Err(UnknownLookup) <==>
                 who.Authenticated? && (Given(q.isFavorited) || Given(q.isInShoppingCart)))
  {
    if !TagsChoiceValid(db, q.tags) then Err(InvalidField)
    else if who.Authenticated? && (Given(q.isFavorited) || Given(q.isInShoppingCart)) then Err(UnknownLookup)
    else FilterRecipes(db, who, q, qs)
  }

  /** The discrepancy: an authenticated `?is_favorited=1` fails instead of
      listing the user's favourites. */
  lemma AsWrittenFavoriteFlagFails(db: Db, user: UserId, qs: seq<RecipeId>)
    ensures FilterRecipesAsWritten(db, Relations.Authenticated(user), RecipeQuery(Some("1"), None, None, []), qs)
            == Err(UnknownLookup)
    ensures FilterRecipes(db, Relations.Authenticated(user), RecipeQuery(Some("1"), None, None, []), qs).Ok?
  {
  }

  /** Where neither relation restriction applies, the two agree. */
  lemma AsWrittenAgreesWithoutFlags(db: Db, who: Relations.Requester, q: RecipeQuery, qs: seq<RecipeId>)
    requires !(who.Authenticated? && (Given(q.isFavorited) || Given(q.isInShoppingCart)))
    ensures FilterRecipesAsWritten(db, who, q, qs) == FilterRecipes(db, who, q, qs)
  {
  }

  /** For an authenticated requester, the corrected `is_favorited` filter
      lists exactly the recipes that `RecipeSerializer` flags as favourites,
      and `is_in_shopping_cart` exactly those it flags as in the cart. */
  lemma FilterAgreesWithFlags(db: Db, user: UserId, qs: seq<RecipeId>, v: string)
    requires v != ""
    ensures var who := Relations.Authenticated(user);
            var r := FilterRecipes(db, who, RecipeQuery(Some(v), None, None, []), qs);
            r.Ok? && forall rid :: rid in r.value <==> rid in qs && Relations.IsFavorited(db, who, rid)
    ensures var who := Relations.Authenticated(user);
            var r := FilterRecipes(db, who, RecipeQuery(None, Some(v), None, []), qs);
            r.Ok? && forall rid :: rid in r.value <==> rid in qs && Relations.IsInShoppingCart(db, who, rid)
  {
  }

  // ---------------------------------------------------------------------
  // IngredientFilter

  /** `name` with `istartswith`: the ingredients whose name starts with the
      value, ignoring letter case; an empty value lists everything. */
  function FilterIngredients(db: Db, name: Option<string>, qs: seq<IngredientId>): (r: seq<IngredientId>)
    ensures !Given(name) ==> r == qs
    ensures Given(name) ==>
              forall x :: x in r <==> x in qs && x in db.ingredients && Text.IStartsWith(db.ingredients[x].name, name.value)
  {
    if !Given(name) then qs
    else Keep(qs, (x: nat) => x in db.ingredients && Text.IStartsWith(db.ingredients[x].name, name.value))
  }

  /** Matching ignores the case of the value: a value and its upper-case
      form list the same ingredients. */
  lemma IngredientFilterCaseBlind(db: Db, v: string, qs: seq<IngredientId>)
    requires v != ""
    ensures FilterIngredients(db, Some(v), qs) == FilterIngredients(db, Some(Text.Upper(v)), qs)
  {
    Text.UpperIdempotent(v);
    KeepSamePredicate(qs,
      (x: nat) => x in db.ingredients && Text.IStartsWith(db.ingredients[x].name, v),
      (x: nat) => x in db.ingredients && Text.IStartsWith(db.ingredients[x].name, Text.Upper(v)));
  }
}
