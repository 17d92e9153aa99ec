/** Shared result types for the foodgram model: the outcome of every view,
    validator and store transition is either a value or one error kind. */
module Base {

  datatype Option<T> = None | Some(value: T)

  /** HTTP verbs a request can carry. */
  datatype Method = Get | Post | Put | Patch | Delete

  /** The two user/recipe relations that share the abstract `AbsModel` shape. */
  datatype RelationKind = Favorites | ShoppingCart

  /** Error kinds; each stands for one exception or error response of the source. */
  datatype Error =
    | NotFound                        // get_object_or_404 matched no row
    | MultipleFound                   // get_object_or_404 matched more than one row
    | MethodNotAllowed                // the router refuses a verb the action does not list
    | AlreadyPresent(kind: RelationKind)
    | NotPresent(kind: RelationKind)
    | AlreadySubscribed
    | SelfFollow
    | MissingKey                      // a Python KeyError
    | EmptyTags
    | UnknownTag
    | EmptyIngredients
    | DuplicateIngredient
    | InvalidField                    // a serializer field-level validation error
    | ConstraintViolation             // the database refused a row (IntegrityError)
    | MalformedDataUri                // unpacking the data-URI split did not yield two parts
    | UnknownLookup                   // a FieldError: a query names a relation the model does not have

  datatype Result<T> = Ok(value: T) | Err(error: Error) {
    predicate IsFailure() {
      Err?
    }

    function PropagateFailure<U>(): Result<U>
      requires Err?
    {
      Err(error)
    }

    function Extract(): T
      requires Ok?
    {
      value
    }
  }

  /** A check that carries no value: it passes or fails with an error. */
  datatype Outcome = Pass | Fail(error: Error)
}
