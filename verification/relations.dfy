/** The relation views of the API: adding and removing favourites and
    shopping-cart entries, subscribing and unsubscribing, listing one's
    subscriptions, and the `is_*` flags the serializers report. */
module Relations {
  import opened Base
  import opened Models
  import Validators

  /** Who sends the request: an anonymous visitor or an authenticated user. */
  datatype Requester = Anonymous | Authenticated(id: UserId)

  // ---------------------------------------------------------------------
  // Favourites and shopping cart

  /** Saving a favourite or cart row: the uniqueness constraint refuses a
      second row for the same pair. */
  function InsertUserRecipe(rel: set<UserRecipe>, p: UserRecipe): (r: Result<set<UserRecipe>>)
    ensures r.Ok? <==> p !in rel
    ensures r.Ok? ==> r.value == rel + {p}
    ensures r.Err? ==> r.error == ConstraintViolation
  {
    if p in rel then Err(ConstraintViolation) else Ok(rel + {p})
  }

  /** The `favorite` and `shopping_cart` actions, which differ only in the
      relation they touch. Only POST and DELETE are routed. The validator runs
      before the recipe is looked up, so a DELETE of an absent pair fails
      validation whether or not the recipe exists. A successful POST adds
      exactly the pair, a successful DELETE removes exactly the pair, and
      nothing else in the database changes. */
  function UserRecipeAction(db: Db, kind: RelationKind, verb: Method, user: UserId, recipeId: RecipeId)
    : (r: Result<Db>)
    ensures verb != Post && verb != Delete ==> r == Err(MethodNotAllowed)
    ensures verb == Post && UserRecipe(user, recipeId) in Relation(db, kind) ==> r == Err(AlreadyPresent(kind))
    ensures verb == Delete && UserRecipe(user, recipeId) !in Relation(db, kind) ==> r == Err(NotPresent(kind))
    ensures (verb == Post && UserRecipe(user, recipeId) !in Relation(db, kind)) ||
            (verb == Delete && UserRecipe(user, recipeId) in Relation(db, kind)) ==>
              (r.Ok? <==> recipeId in db.recipes) && (r.Err? ==> r.error == NotFound)
    ensures r.Ok? && verb == Post ==>
              Relation(r.value, kind) == Relation(db, kind) + {UserRecipe(user, recipeId)}
    ensures r.Ok? && verb == Delete ==>
              Relation(r.value, kind) == Relation(db, kind) - {UserRecipe(user, recipeId)}
    ensures r.Ok? ==> r.value == WithRelation(db, kind, Relation(r.value, kind))
    ensures r.Err? ==> r.error != ConstraintViolation
  {
    if verb != Post && verb != Delete then Err(MethodNotAllowed)
    else
      match Validators.RelationValidate(db, kind, verb, user, recipeId)
      case Fail(e) => Err(e)
      case Pass =>
        if recipeId !in db.recipes then Err(NotFound)
        else if verb == Post then
          match InsertUserRecipe(Relation(db, kind), UserRecipe(user, recipeId))
          case Ok(rel) => Ok(WithRelation(db, kind, rel))
          case Err(e) => Err(e)
        else
          Ok(WithRelation(db, kind, Relation(db, kind) - {UserRecipe(user, recipeId)}))
  }

  /** Adding the same favourite or cart entry twice: the first POST succeeds
      and the second is refused, so adding is not idempotent. */
  lemma AddTwiceRefused(db: Db, kind: RelationKind, user: UserId, recipeId: RecipeId)
    requires UserRecipe(user, recipeId) !in Relation(db, kind) && recipeId in db.recipes
    ensures UserRecipeAction(db, kind, Post, user, recipeId).Ok?
    ensures UserRecipeAction(UserRecipeAction(db, kind, Post, user, recipeId).value, kind, Post, user, recipeId)
            == Err(AlreadyPresent(kind))
  {
  }

  /** A successful action keeps the invariant: the recipe exists and the user
      is an existing user. */
  lemma UserRecipeActionKeepsValid(db: Db, kind: RelationKind, verb: Method, user: UserId, recipeId: RecipeId)
    requires Valid(db) && user in db.users
    ensures UserRecipeAction(db, kind, verb, user, recipeId).Ok? ==>
              Valid(UserRecipeAction(db, kind, verb, user, recipeId).value)
  {
  }

  // ---------------------------------------------------------------------
  // Subscriptions

  /** The set of (follower, author) pairs stored. */
  function Follows(subs: seq<Subscribe>): set<(UserId, UserId)>
  {
    set s | s in subs :: (s.user, s.author)
  }

  /** Saving a subscription with the next primary key; the uniqueness
      constraint refuses a second row for the same pair. */
  function InsertSubscription(db: Db, user: UserId, author: UserId): (r: Result<Db>)
    ensures r.Ok? <==> !Subscribed(db, user, author)
    ensures r.Ok? ==> r.value.subscriptions == db.subscriptions + [Subscribe(db.nextSubscribeId, user, author)]
    ensures r.Ok? ==> r.value == db.(subscriptions := r.value.subscriptions, nextSubscribeId := db.nextSubscribeId + 1)
    ensures r.Err? ==> r.error == ConstraintViolation
  {
    if Subscribed(db, user, author) then Err(ConstraintViolation)
    else Ok(db.(subscriptions := db.subscriptions + [Subscribe(db.nextSubscribeId, user, author)],
                nextSubscribeId := db.nextSubscribeId + 1))
  }

  /** Primary keys are unique among ascending rows. */
  lemma AscendingIdsUnique(subs: seq<Subscribe>)
    ensures IdsAscending(subs) ==> forall x, y :: x in subs && y in subs && x.id == y.id ==> x == y
  {
    forall x, y | IdsAscending(subs) && x in subs && y in subs && x.id == y.id
      ensures x == y
    {
      var i :| 0 <= i < |subs| && subs[i] == x;
      var j :| 0 <= j < |subs| && subs[j] == y;
      assert !(i < j) && !(j < i);
    }
  }

  /** The `subscribe` action. The author is looked up first. POST runs the
      follow validator and saves the row; DELETE removes the one row for the
      pair and fails when there is none. */
  function SubscribeAction(db: Db, verb: Method, user: UserId, authorId: UserId): (r: Result<Db>)
    ensures verb != Post && verb != Delete ==> r == Err(MethodNotAllowed)
    ensures (verb == Post || verb == Delete) && authorId !in db.users ==> r == Err(NotFound)
    ensures verb == Post && authorId in db.users && Subscribed(db, user, authorId) ==> r == Err(AlreadySubscribed)
    ensures verb == Post && authorId in db.users && !Subscribed(db, user, authorId) ==>
              r == (if user == authorId then Err(SelfFollow) else r) && (user != authorId ==> r.Ok?)
    ensures verb == Delete && authorId in db.users ==> (r.Ok? <==> Subscribed(db, user, authorId))
    ensures verb == Delete && r.Err? ==> r.error == NotFound || r.error == MethodNotAllowed
    ensures r.Ok? && verb == Post ==>
              && r.value.subscriptions == db.subscriptions + [Subscribe(db.nextSubscribeId, user, authorId)]
              && Follows(r.value.subscriptions) == Follows(db.subscriptions) + {(user, authorId)}
    ensures r.Ok? && verb == Delete && SubscriptionsValid(db) ==>
              forall s :: s in r.value.subscriptions <==>
                s in db.subscriptions && (s.user != user || s.author != authorId)
    ensures r.Ok? ==> r.value == db.(subscriptions := r.value.subscriptions, nextSubscribeId := r.value.nextSubscribeId)
    ensures r.Err? ==> r.error != ConstraintViolation
  {
    if verb != Post && verb != Delete then Err(MethodNotAllowed)
    else if authorId !in db.users then Err(NotFound)
    else if verb == Post then
      match Validators.FollowValidate(db, verb, user, authorId)
      case Fail(e) => Err(e)
      case Pass =>
        var r := InsertSubscription(db, user, authorId);
        assert Follows(db.subscriptions + [Subscribe(db.nextSubscribeId, user, authorId)])
               == Follows(db.subscriptions) + {(user, authorId)};
        r
    else
      match FindSubscription(db.subscriptions, user, authorId)
      case None => Err(NotFound)
      case Some(id) =>
        AscendingIdsUnique(db.subscriptions);
        Ok(db.(subscriptions := KeepSubscriptions(db.subscriptions, (s: Subscribe) => s.id != id)))
  }

  /** Subscribing to oneself never succeeds, whatever is stored. */
  lemma SelfFollowRefused(db: Db, verb: Method, user: UserId)
    ensures verb == Post ==> SubscribeAction(db, verb, user, user).Err?
  {
  }

  /** `subscriptions`: the caller's rows, every one of them, in ascending
      primary-key order. */
  function Subscriptions(db: Db, user: UserId): (r: seq<Subscribe>)
    ensures forall s :: s in r <==> s in db.subscriptions && s.user == user
    ensures SubscriptionsValid(db) ==> IdsAscending(r)
  {
    KeepSubscriptions(db.subscriptions, (s: Subscribe) => s.user == user)
  }

  /** After a successful subscribe, the new row is the last of the
      subscriber's listing. */
  lemma {:induction false} NewSubscriptionListedLast(db: Db, user: UserId, authorId: UserId)
    requires SubscribeAction(db, Post, user, authorId).Ok?
    ensures var listing := Subscriptions(SubscribeAction(db, Post, user, authorId).value, user);
            |listing| > 0 && listing[|listing| - 1] == Subscribe(db.nextSubscribeId, user, authorId)
  {
    var subs := db.subscriptions;
    var row := Subscribe(db.nextSubscribeId, user, authorId);
    var keep := (s: Subscribe) => s.user == user;
    KeepAppend(subs, row, keep);
  }

  lemma {:induction false} KeepAppend(subs: seq<Subscribe>, row: Subscribe, keep: Subscribe -> bool)
    requires keep(row)
    ensures KeepSubscriptions(subs + [row], keep) == KeepSubscriptions(subs, keep) + [row]
    decreases |subs|
  {
    if |subs| == 0 {
      assert KeepSubscriptions([row], keep) == [row] + KeepSubscriptions([], keep);
    } else {
      assert (subs + [row])[1..] == subs[1..] + [row];
      KeepAppend(subs[1..], row, keep);
    }
  }

  /** The subscribe action keeps the invariant and never stores a
      self-subscription. */
  lemma SubscribeActionKeepsValid(db: Db, verb: Method, user: UserId, authorId: UserId)
    requires Valid(db) && user in db.users
    ensures SubscribeAction(db, verb, user, authorId).Ok? ==>
              && Valid(SubscribeAction(db, verb, user, authorId).value)
              && (NoSelfFollow(db) ==> NoSelfFollow(SubscribeAction(db, verb, user, authorId).value))
  {
    var r := SubscribeAction(db, verb, user, authorId);
    if r.Ok? && verb == Post {
      AppendKeepsValid(db, r.value, user, authorId);
    } else if r.Ok? {
      assert forall s :: s in r.value.subscriptions ==> s in db.subscriptions;
      assert IdsAscending(r.value.subscriptions);
    }
  }

  /** Appending the row of a new pair with the next primary key keeps the
      invariant. */
  lemma AppendKeepsValid(db: Db, after: Db, user: UserId, authorId: UserId)
    requires Valid(db) && user in db.users && authorId in db.users
    requires !Subscribed(db, user, authorId)
    requires after == db.(subscriptions := db.subscriptions + [Subscribe(db.nextSubscribeId, user, authorId)],
                          nextSubscribeId := db.nextSubscribeId + 1)
    ensures Valid(after)
    ensures NoSelfFollow(db) && user != authorId ==> NoSelfFollow(after)
  {
    var subs := db.subscriptions;
    var row := Subscribe(db.nextSubscribeId, user, authorId);
    assert forall s :: s in subs ==> s.user != user || s.author != authorId;
    assert forall s :: s in subs + [row] <==> s in subs || s == row;
    assert IdsAscending(subs + [row]) by {
      forall i, j | 0 <= i < j < |subs + [row]|
        ensures (subs + [row])[i].id < (subs + [row])[j].id
      {
        assert (subs + [row])[i] == subs[i];
        if j == |subs| {
          assert subs[i] in subs;
        }
      }
    }
  }

  /** No stored subscription has the user as their own author. */
  ghost predicate NoSelfFollow(db: Db)
  {
    forall s :: s in db.subscriptions ==> s.user != s.author
  }

  // ---------------------------------------------------------------------
  // What the serializers report

  /** The per-row representation of `FollowSerializer`. */
  datatype FollowEntry = FollowEntry(id: UserId, isSubscribed: bool, recipes: set<RecipeId>, recipesCount: nat)

  /** `FollowSerializer` for one subscription row: the author's id, whether
      the pair is subscribed, the author's recipes and their number. */
  function FollowRepresentation(db: Db, s: Subscribe): (e: FollowEntry)
    ensures e.id == s.author
    ensures s in db.subscriptions ==> e.isSubscribed
    ensures e.isSubscribed <==> (s.user, s.author) in Follows(db.subscriptions)
    ensures e.isSubscribed == IsSubscribed(db, Authenticated(s.user), s.author)
    ensures forall rid :: rid in e.recipes <==> rid in db.recipes && db.recipes[rid].author == s.author
    ensures e.recipesCount == |e.recipes|
  {
    var recipes := set rid | rid in db.recipes && db.recipes[rid].author == s.author;
    FollowEntry(s.author, Subscribed(db, s.user, s.author), recipes, |recipes|)
  }

  /** The `subscriptions` page before pagination: one entry per row of the
      caller, in row order, each flagged as subscribed. */
  function SubscriptionsPage(db: Db, user: UserId): (page: seq<FollowEntry>)
    ensures |page| == |Subscriptions(db, user)|
    ensures forall i :: 0 <= i < |page| ==> page[i].id == Subscriptions(db, user)[i].author
    ensures forall i :: 0 <= i < |page| ==> page[i].isSubscribed
    ensures forall i, rid :: 0 <= i < |page| ==>
              (rid in page[i].recipes <==> rid in db.recipes && db.recipes[rid].author == page[i].id)
    ensures forall i :: 0 <= i < |page| ==> page[i].recipesCount == |page[i].recipes|
    ensures forall i :: 0 <= i < |page| ==> page[i] == FollowRepresentation(db, Subscriptions(db, user)[i])
  {
    var rows := Subscriptions(db, user);
    seq(|rows|, i requires 0 <= i < |rows| => FollowRepresentation(db, rows[i]))
  }

  /** The page names an author exactly when the caller follows them. */
  lemma SubscriptionsPageFollowed(db: Db, user: UserId, author: UserId)
    ensures (exists i :: 0 <= i < |SubscriptionsPage(db, user)| && SubscriptionsPage(db, user)[i].id == author)
            <==> (user, author) in Follows(db.subscriptions)
  {
    var page := SubscriptionsPage(db, user);
    var rows := Subscriptions(db, user);
    if (user, author) in Follows(db.subscriptions) {
      var s :| s in db.subscriptions && (s.user, s.author) == (user, author);
      assert s in rows;
      var i :| 0 <= i < |rows| && rows[i] == s;
      assert page[i].id == author;
    }
    if i :| 0 <= i < |page| && page[i].id == author {
      assert rows[i] in rows;
      assert (rows[i].user, rows[i].author) in Follows(db.subscriptions);
    }
  }

  /** `CustomUserSerializer.get_is_subscribed`: false for an anonymous
      visitor, otherwise whether the visitor follows the author. */
  function IsSubscribed(db: Db, who: Requester, author: UserId): (b: bool)
    ensures b <==> who.Authenticated? && (who.id, author) in Follows(db.subscriptions)
  {
    who.Authenticated? && Subscribed(db, who.id, author)
  }

  /** `RecipeSerializer.get_is_favorited`. */
  function IsFavorited(db: Db, who: Requester, recipeId: RecipeId): bool
  {
    !who.Anonymous? && UserRecipe(who.id, recipeId) in db.favorites
  }

  /** `RecipeSerializer.get_is_in_shopping_cart`. */
  function IsInShoppingCart(db: Db, who: Requester, recipeId: RecipeId): bool
  {
    !who.Anonymous? && UserRecipe(who.id, recipeId) in db.cart
  }

  /** The flags follow the actions: after a successful POST the flag is set,
      after a successful DELETE it is clear. */
  lemma FlagsFollowActions(db: Db, kind: RelationKind, verb: Method, user: UserId, recipeId: RecipeId)
    requires UserRecipeAction(db, kind, verb, user, recipeId).Ok?
    ensures var after := UserRecipeAction(db, kind, verb, user, recipeId).value;
            var flag := if kind == Favorites then IsFavorited(after, Authenticated(user), recipeId)
                        else IsInShoppingCart(after, Authenticated(user), recipeId);
            flag <==> verb == Post
  {
  }
}
