/** The write requests of the API and the admin, dispatched to their views,
    and the invariant every successful request keeps. */
module Store {
  import opened Base
  import opened Models
  import Validators
  import Relations
  import RecipeWrite
  import Admin

  /** A state-changing request; `user` is the authenticated requester. */
  datatype Request =
    | FavoriteRequest(verb: Method, user: UserId, recipe: RecipeId)
    | CartRequest(verb: Method, user: UserId, recipe: RecipeId)
    | SubscribeRequest(verb: Method, user: UserId, author: UserId)
    | CreateRecipeRequest(user: UserId, data: Validators.RecipeData)
    | PatchRecipeRequest(user: UserId, recipe: RecipeId, data: Validators.RecipeData)
    | DeleteRecipeRequest(user: UserId, recipe: RecipeId)
    | AdminSubscriptionRequest(user: UserId, author: UserId)

  /** Dispatch. `DELETE /recipes/{id}/` looks the recipe up and cascades; the
      admin subscription form picks both users among existing ones and runs
      the corrected `save_model` (`Admin.SaveSubscription`), which stores the
      row, rather than the one as written, which stores nothing. */
  function Handle(db: Db, req: Request): (r: Result<Db>)
    ensures r.Ok? ==> r.value.users == db.users
    ensures r.Ok? && (req.FavoriteRequest? || req.CartRequest?) ==>
              r.value.recipes == db.recipes && r.value.subscriptions == db.subscriptions &&
              r.value.ingredientRows == db.ingredientRows
    ensures r.Ok? && (req.SubscribeRequest? || req.AdminSubscriptionRequest?) ==>
              r.value.recipes == db.recipes && r.value.favorites == db.favorites && r.value.cart == db.cart
    ensures r.Ok? && (req.CreateRecipeRequest? || req.PatchRecipeRequest?) ==>
              r.value.subscriptions == db.subscriptions && r.value.favorites == db.favorites &&
              r.value.cart == db.cart && r.value.users == db.users
    ensures r.Ok? && req.DeleteRecipeRequest? ==> req.recipe in db.recipes && req.recipe !in r.value.recipes
    ensures r.Ok? && req.DeleteRecipeRequest? ==>
              r.value.subscriptions == db.subscriptions && r.value.tags == db.tags &&
              r.value.ingredients == db.ingredients &&
              forall x :: x in r.value.recipes <==> x in db.recipes && x != req.recipe
    ensures r.Ok? && req.AdminSubscriptionRequest? ==>
              req.author in db.users && Subscribed(r.value, req.user, req.author)
  {
    match req
    case FavoriteRequest(verb, user, rid) => Relations.UserRecipeAction(db, Favorites, verb, user, rid)
    case CartRequest(verb, user, rid) => Relations.UserRecipeAction(db, ShoppingCart, verb, user, rid)
    case SubscribeRequest(verb, user, author) => Relations.SubscribeAction(db, verb, user, author)
    case CreateRecipeRequest(user, data) =>
      var (d, _) :- RecipeWrite.CreateRecipe(db, user, data);
      Ok(d)
    case PatchRecipeRequest(_, rid, data) => RecipeWrite.PartialUpdateRecipe(db, rid, data)
    case DeleteRecipeRequest(_, rid) => if rid in db.recipes then Ok(DeleteRecipe(db, rid)) else Err(NotFound)
    case AdminSubscriptionRequest(user, author) =>
      if author !in db.users then Err(NotFound) else Admin.SaveSubscription(db, user, author)
  }

  /** The requesting user is an existing user. */
  predicate ActorExists(db: Db, req: Request)
  {
    req.user in db.users
  }

  /** Every successful request keeps the invariant, and no request stores a
      self-subscription. */
  lemma HandleKeepsValid(db: Db, req: Request)
    requires Valid(db) && ActorExists(db, req)
    ensures Handle(db, req).Ok? ==> Valid(Handle(db, req).value)
    ensures Handle(db, req).Ok? && Relations.NoSelfFollow(db) ==> Relations.NoSelfFollow(Handle(db, req).value)
  {
    match req
    case FavoriteRequest(verb, user, rid) => Relations.UserRecipeActionKeepsValid(db, Favorites, verb, user, rid);
    case CartRequest(verb, user, rid) => Relations.UserRecipeActionKeepsValid(db, ShoppingCart, verb, user, rid);
    case SubscribeRequest(verb, user, author) => Relations.SubscribeActionKeepsValid(db, verb, user, author);
    case CreateRecipeRequest(user, data) => RecipeWrite.CreateKeepsValid(db, user, data);
    case PatchRecipeRequest(_, rid, data) => RecipeWrite.PartialUpdateKeepsValid(db, rid, data);
    case DeleteRecipeRequest(_, rid) =>
    case AdminSubscriptionRequest(user, author) =>
      if author in db.users {
        Admin.SaveSubscriptionKeepsValid(db, user, author);
      }
  }

  /** A sequence of requests, each applied to the state the previous one
      left; a refused request leaves the state as it was. */
  function Run(db: Db, reqs: seq<Request>): Db
    decreases |reqs|
  {
    if |reqs| == 0 then db
    else
      var next := match Handle(db, reqs[0]) case Ok(d) => d case Err(_) => db;
      Run(next, reqs[1..])
  }

  /** Requests by users that exist keep the invariant all along, and no
      self-subscription ever appears. */
  lemma {:induction false} RunKeepsValid(db: Db, reqs: seq<Request>)
    requires Valid(db) && Relations.NoSelfFollow(db)
    requires forall k :: 0 <= k < |reqs| ==> reqs[k].user in db.users
    ensures Valid(Run(db, reqs)) && Relations.NoSelfFollow(Run(db, reqs))
    decreases |reqs|
  {
    if |reqs| > 0 {
      HandleKeepsValid(db, reqs[0]);
      var next := match Handle(db, reqs[0]) case Ok(d) => d case Err(_) => db;
      assert next.users == db.users;
      RunKeepsValid(next, reqs[1..]);
    }
  }
}
