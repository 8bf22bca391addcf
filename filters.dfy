/** `stringFilter` and `numberFilter`: the per-field predicates of the books
    query. Each is a chain of guards; a guard whose bound is absent (`null`)
    is skipped, and the value passes when no guard rejects it. */
module Filters {
  import opened Wrappers
  import opened Text

  /** The `IntFilter` input; `let` and `get` are the source's spellings of
      "less or equal" and "greater or equal". */
  datatype IntFilter = IntFilter(
    eq: Option<int>, neq: Option<int>,
    lt: Option<int>, let: Option<int>,
    gt: Option<int>, get: Option<int>)

  /** The `StringFilter` input; `like` is the "fuzzy search" needle. */
  datatype StringFilter = StringFilter(eq: Option<string>, neq: Option<string>, like: Option<string>)

  /** A bound that is absent or holds. */
  predicate Within<T>(bound: Option<T>, holds: T -> bool) {
    bound.None? || holds(bound.value)
  }

  /** `numberFilter(value, filter)`: true exactly when every present bound holds. */
  function NumberFilterHolds(value: int, filter: IntFilter): (ok: bool)
    ensures ok <==>
      && Within(filter.eq, (e: int) => value == e)
      && Within(filter.neq, (n: int) => value != n)
      && Within(filter.lt, (b: int) => value < b)
      && Within(filter.let, (b: int) => value <= b)
      && Within(filter.gt, (b: int) => value > b)
      && Within(filter.get, (b: int) => value >= b)
    ensures filter == IntFilter(None, None, None, None, None, None) ==> ok
  {
    if filter.eq.Some? && value != filter.eq.value then false
    else if filter.neq.Some? && value == filter.neq.value then false
    else if filter.lt.Some? && value >= filter.lt.value then false
    else if filter.let.Some? && value > filter.let.value then false
    else if filter.gt.Some? && value <= filter.gt.value then false
    else if filter.get.Some? && value < filter.get.value then false
    else true
  }

  /** `stringFilter(value, filter)`: `eq` and `neq` compare exactly; `like`
      must occur in the lower-cased value, while the needle itself is used as
      given. */
  function StringFilterHolds(value: string, filter: StringFilter): (ok: bool)
    ensures ok <==>
      && (filter.eq.None? || value == filter.eq.value)
      && (filter.neq.None? || value != filter.neq.value)
      && (filter.like.None? || IsSubstring(filter.like.value, ToLower(value)))
    ensures filter == StringFilter(None, None, None) ==> ok
  {
    if filter.eq.Some? && value != filter.eq.value then false
    else if filter.neq.Some? && value == filter.neq.value then false
    else if filter.like.Some? && IndexOf(ToLower(value), filter.like.value) == -1 then false
    else true
  }

  /** Because only the value is lower-cased, a `like` needle that contains an
      ASCII capital letter matches no value at all. */
  lemma UpperCaseNeedleNeverMatches(value: string, filter: StringFilter, k: int)
    requires filter.like.Some? && 0 <= k < |filter.like.value| && IsUpper(filter.like.value[k])
    ensures !StringFilterHolds(value, filter)
  {
  }

  /** A `like` needle is matched regardless of the case of the value. */
  lemma LikeIgnoresCaseOfValue(value: string, filter: StringFilter)
    requires filter.eq.None? && filter.neq.None?
    ensures StringFilterHolds(value, filter) == StringFilterHolds(ToLower(value), filter)
  {
    ToLowerIdempotent(value);
  }
}
