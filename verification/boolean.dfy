/** Combinators on any type conforming to the `Boolean` protocol. The
    protocol's single requirement, `boolValue`, is passed explicitly as a
    total function; `Bool` itself and `Trilean` are the two conformances
    the model instantiates it with. The `rethrows` autoclosures are taken
    as already-evaluated values. */
module Booleans {
  import opened Wrappers
  import opened Trileans

  /** `then(_:)`: the value when the receiver is true, otherwise `nil`. */
  function Then<B, V>(b: B, boolValue: B -> bool, value: V): (r: Option<V>)
    ensures r.Some? <==> boolValue(b)
    ensures r.Some? ==> r.value == value
  {
    if boolValue(b) then Some(value) else None
  }

  /** The overload of `then(_:)` whose value is itself optional: the payload
      is passed through unflattened only when the receiver is true. */
  function ThenOptional<B, V>(b: B, boolValue: B -> bool, value: Option<V>): (r: Option<V>)
    ensures boolValue(b) ==> r == value
    ensures !boolValue(b) ==> r == None
  {
    if boolValue(b) then value else None
  }

  /** `lhs &&-> rhs` is `lhs.then(rhs)`. */
  function AndThen<B, V>(lhs: B, boolValue: B -> bool, rhs: V): (r: Option<V>)
    ensures r == Then(lhs, boolValue, rhs)
  {
    if boolValue(lhs) then Some(rhs) else None
  }

  /** The overload of `&&->` whose right-hand side is optional is the
      optional overload of `then`. */
  function AndThenOptional<B, V>(lhs: B, boolValue: B -> bool, rhs: Option<V>): (r: Option<V>)
    ensures r == ThenOptional(lhs, boolValue, rhs)
  {
    if boolValue(lhs) then rhs else None
  }

  /** `or(_:)`: the value when the receiver is false, otherwise `nil`. */
  function OrElse<B, V>(b: B, boolValue: B -> bool, value: V): (r: Option<V>)
    ensures r.Some? <==> !boolValue(b)
    ensures r.Some? ==> r.value == value
  {
    if !boolValue(b) then Some(value) else None
  }

  /** The overload of `or(_:)` whose value is itself optional. */
  function OrElseOptional<B, V>(b: B, boolValue: B -> bool, value: Option<V>): (r: Option<V>)
    ensures !boolValue(b) ==> r == value
    ensures boolValue(b) ==> r == None
  {
    if !boolValue(b) then value else None
  }

  /** `lhs ||> rhs` is `lhs.or(rhs)`. */
  function OrThen<B, V>(lhs: B, boolValue: B -> bool, rhs: V): (r: Option<V>)
    ensures r == OrElse(lhs, boolValue, rhs)
  {
    if !boolValue(lhs) then Some(rhs) else None
  }

  /** The overload of `||>` whose right-hand side is optional is the
      optional overload of `or`. */
  function OrThenOptional<B, V>(lhs: B, boolValue: B -> bool, rhs: Option<V>): (r: Option<V>)
    ensures r == OrElseOptional(lhs, boolValue, rhs)
  {
    if !boolValue(lhs) then rhs else None
  }

  /** `lhs &&= rhs`, as the new value of `lhs`: assigned only when `lhs` is
      true, so the result's truth is the conjunction. */
  function AndAssign<B>(lhs: B, rhs: B, boolValue: B -> bool): (r: B)
    ensures !boolValue(lhs) ==> r == lhs
    ensures boolValue(lhs) ==> r == rhs
    ensures boolValue(r) == (boolValue(lhs) && boolValue(rhs))
  {
    if boolValue(lhs) then rhs else lhs
  }

  /** `lhs ||= rhs`, as the new value of `lhs`: assigned only when `lhs` is
      false and `rhs` is true, so the result's truth is the disjunction and
      a false value is never written. */
  function OrAssign<B>(lhs: B, rhs: B, boolValue: B -> bool): (r: B)
    ensures boolValue(lhs) ==> r == lhs
    ensures !boolValue(lhs) && boolValue(rhs) ==> r == rhs
    ensures !boolValue(lhs) && !boolValue(rhs) ==> r == lhs
    ensures boolValue(r) == (boolValue(lhs) || boolValue(rhs))
    ensures r != lhs ==> boolValue(r)
  {
    if !boolValue(lhs) then (if boolValue(rhs) then rhs else lhs) else lhs
  }

  /** Each optional-payload overload, fed a present payload, is the plain one. */
  lemma OptionalOverloadsAgree<B, V>(b: B, boolValue: B -> bool, value: V)
    ensures ThenOptional(b, boolValue, Some(value)) == Then(b, boolValue, value)
    ensures OrElseOptional(b, boolValue, Some(value)) == OrElse(b, boolValue, value)
  {
  }

  /** Exactly one of `then` and `or` yields the value. */
  lemma ThenOrComplementary<B, V>(b: B, boolValue: B -> bool, value: V)
    ensures Then(b, boolValue, value).Some? != OrElse(b, boolValue, value).Some?
  {
  }

  /** Repeating either compound assignment with the same right-hand side
      changes nothing more. */
  lemma AssignIdempotent<B>(lhs: B, rhs: B, boolValue: B -> bool)
    ensures AndAssign(AndAssign(lhs, rhs, boolValue), rhs, boolValue) == AndAssign(lhs, rhs, boolValue)
    ensures OrAssign(OrAssign(lhs, rhs, boolValue), rhs, boolValue) == OrAssign(lhs, rhs, boolValue)
  {
  }

  /** `Bool`'s own `boolValue`, for which `BoolAssignIsConnective` is stated. */
  function BoolIdentity(b: bool): bool { b }

  /** For `Bool` the compound assignments are ordinary `&&` and `||`. */
  lemma BoolAssignIsConnective(lhs: bool, rhs: bool)
    ensures AndAssign(lhs, rhs, BoolIdentity) == (lhs && rhs)
    ensures OrAssign(lhs, rhs, BoolIdentity) == (lhs || rhs)
  {
  }

  /** For `Trilean` the compound assignments go through `boolValue`, which
      treats unknown as false. They agree with the three-valued `&&` and `||`
      on `boolValue` but not on the value: `unknown &&= false` keeps unknown
      where `unknown && false` is false, and `false ||= unknown` keeps false
      where `false || unknown` is unknown. */
  lemma TrileanAssignVersusOperators(lhs: Trilean, rhs: Trilean)
    ensures BoolValue(AndAssign(lhs, rhs, BoolValue)) == BoolValue(And(lhs, rhs))
    ensures BoolValue(OrAssign(lhs, rhs, BoolValue)) == BoolValue(Or(lhs, rhs))
    ensures AndAssign(Unknown, False, BoolValue) == Unknown && And(Unknown, False) == False
    ensures OrAssign(False, Unknown, BoolValue) == False && Or(False, Unknown) == Unknown
  {
  }
}
