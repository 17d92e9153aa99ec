/** `NameFilter`, the admin sidebar filter on the `name` column: one choice
    per row, and, once a choice is picked, the rows carrying exactly that
    name. */
module AdminFilters {
  import opened Base
  import Text
  import Filters

  /** `lookups`: for every row of the model, in queryset order, the pair
      (full name, name cut to 15 characters) — value and label. */
  function Lookups(rows: seq<nat>, nameOf: map<nat, string>): (r: seq<(string, string)>)
    requires forall k :: 0 <= k < |rows| ==> rows[k] in nameOf
    ensures |r| == |rows|
    ensures forall k :: 0 <= k < |rows| ==> r[k].0 == nameOf[rows[k]]
    ensures forall k :: 0 <= k < |rows| ==> r[k].1 <= r[k].0 && |r[k].1| == if |r[k].0| < 15 then |r[k].0| else 15
  {
    seq(|rows|, k requires 0 <= k < |rows| => (nameOf[rows[k]], Text.Take(nameOf[rows[k]], 15)))
  }

  /** `queryset`: with an empty or missing value it returns nothing (Python's
      implicit `None`); otherwise the rows whose name equals the value. */
  function NameQueryset(qs: seq<nat>, nameOf: map<nat, string>, value: Option<string>): (r: Option<seq<nat>>)
    ensures r.None? <==> !Filters.Given(value)
    ensures r.Some? ==> forall x :: x in r.value <==> x in qs && x in nameOf && nameOf[x] == value.value
  {
    if !Filters.Given(value) then None
    else Some(Filters.Keep(qs, (x: nat) => x in nameOf && nameOf[x] == value.value))
  }

  /** The change list after the filter: the admin keeps its queryset when a
      filter returns `None`. */
  function ChangeList(qs: seq<nat>, nameOf: map<nat, string>, value: Option<string>): (r: seq<nat>)
    ensures !Filters.Given(value) ==> r == qs
    ensures forall x :: x in r ==> x in qs
  {
    match NameQueryset(qs, nameOf, value)
    case None => qs
    case Some(s) => s
  }

  /** Picking the choice offered for a row lists that row, and lists only
      rows of the same name. */
  lemma PickedChoiceListsRow(qs: seq<nat>, nameOf: map<nat, string>, k: nat)
    requires forall j :: 0 <= j < |qs| ==> qs[j] in nameOf
    requires k < |qs| && nameOf[qs[k]] != ""
    ensures var value := Lookups(qs, nameOf)[k].0;
            && qs[k] in ChangeList(qs, nameOf, Some(value))
            && forall x :: x in ChangeList(qs, nameOf, Some(value)) ==> nameOf[x] == value
  {
  }
}
