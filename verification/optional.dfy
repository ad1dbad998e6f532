/** Helpers on Swift's `Optional`: conditional construction, the
    assign-if-nil (`??=`) and assign-if-some (`=??`) operators, flattening of
    nested optionals, in-place `mutate` / `remove`, and unwrapping into a
    thrown error. `inout` parameters become functions returning the new value
    (paired with the result where the source also returns one). */
module Optionals {
  import opened Wrappers

  /** `Optional(_:if:)`: the value when the condition holds, else `nil`. */
  function OptionalIf<T>(wrapped: T, condition: bool): (r: Option<T>)
    ensures r.Some? <==> condition
    ensures r.Some? ==> r.value == wrapped
  {
    if condition then Some(wrapped) else None
  }

  /** The overload of `Optional(_:if:)` taking an optional: the payload is
      passed through as is, not wrapped again. */
  function OptionalIfOptional<T>(wrapped: Option<T>, condition: bool): (r: Option<T>)
    ensures condition ==> r == wrapped
    ensures !condition ==> r.None?
  {
    if condition then wrapped else None
  }

  /** Fed a present payload, the optional overload of `Optional(_:if:)` is
      the plain one; fed `nil`, it is `nil` whatever the condition. */
  lemma OptionalIfOverloadsAgree<T>(wrapped: T, condition: bool)
    ensures OptionalIfOptional(Some(wrapped), condition) == OptionalIf(wrapped, condition)
    ensures OptionalIfOptional<T>(None, condition).None?
  {
  }

  /** `map(into:)`: overwrite `wrapped` with the payload when there is one. */
  function MapInto<T>(self: Option<T>, wrapped: T): (newWrapped: T)
    ensures self.Some? ==> newWrapped == self.value
    ensures self.None? ==> newWrapped == wrapped
  {
    match self
    case Some(v) => v
    case None => wrapped
  }

  /** `mutate(_:)`: run the in-place transform on the payload if there is one.
      The transform is a function from the old payload to the new payload and
      the transform's result. Returns the new optional and `mutate`'s result. */
  function Mutate<T, U>(self: Option<T>, transform: T -> (T, U)): (r: (Option<T>, Option<U>))
    ensures self.None? ==> r.0.None? && r.1.None?
    ensures self.Some? ==> r.0 == Some(transform(self.value).0)
    ensures self.Some? ==> r.1 == Some(transform(self.value).1)
  {
    match self
    case None => (None, None)
    case Some(v) =>
      var (updated, result) := transform(v);
      (Some(updated), Some(result))
  }

  /** `mutate` is `map` twice over: the new optional maps the payload to its
      updated value, the result maps it to the transform's result. */
  lemma MutateIsMap<T, U>(self: Option<T>, transform: T -> (T, U))
    ensures Mutate(self, transform).0 == MapOption(self, x => transform(x).0)
    ensures Mutate(self, transform).1 == MapOption(self, x => transform(x).1)
  {
  }

  /** `remove()`: the payload, leaving `nil` behind. The force unwrap makes a
      present payload a precondition. */
  function Remove<T>(self: Option<T>): (r: (T, Option<T>))
    requires self.Some?
    ensures Some(r.0) == self
    ensures r.1.None?
  {
    (self.value, None)
  }

  /** `lhs ??= rhs` with a plain right-hand side: fills a `nil`, keeps a value. */
  function CoalesceAssign<T>(lhs: Option<T>, rhs: T): (r: Option<T>)
    ensures r.Some?
    ensures lhs.Some? ==> r == lhs
    ensures lhs.None? ==> r.value == rhs
  {
    if lhs.None? then Some(rhs) else lhs
  }

  /** `lhs ??= rhs` with an optional right-hand side: changes `lhs` only when
      `lhs` is `nil` and `rhs` is not. */
  function CoalesceAssignOptional<T>(lhs: Option<T>, rhs: Option<T>): (r: Option<T>)
    ensures r != lhs ==> lhs.None? && rhs.Some? && r == rhs
    ensures lhs.None? && rhs.Some? ==> r == rhs
    ensures r.None? <==> lhs.None? && rhs.None?
  {
    if lhs.None? && rhs.Some? then rhs else lhs
  }

  /** `lhs =?? rhs`: replaces `lhs` exactly when `rhs` has a value. */
  function AssignIfSome<T>(lhs: T, rhs: Option<T>): (r: T)
    ensures rhs.Some? ==> r == rhs.value
    ensures rhs.None? ==> r == lhs
  {
    match rhs
    case Some(v) => v
    case None => lhs
  }

  /** `lhs =?? rhs` with a doubly optional `rhs`: flattened first. */
  function AssignIfSomeNested<T>(lhs: T, rhs: Option<Option<T>>): (r: T)
    ensures rhs.Some? && rhs.value.Some? ==> r == rhs.value.value
    ensures !(rhs.Some? && rhs.value.Some?) ==> r == lhs
  {
    AssignIfSome(lhs, Compact(rhs))
  }

  /** `compact()` on `T??`: `self ?? .none`. */
  function Compact<T>(self: Option<Option<T>>): (r: Option<T>)
    ensures r.Some? <==> self.Some? && self.value.Some?
    ensures r.Some? ==> r.value == self.value.value
  {
    self.GetOr(None)
  }

  /** `compact()` on `T???`. */
  function Compact3<T>(self: Option<Option<Option<T>>>): (r: Option<T>)
    ensures r.Some? <==> self.Some? && self.value.Some? && self.value.value.Some?
    ensures r.Some? ==> r.value == self.value.value.value
  {
    self.GetOr(None).GetOr(None)
  }

  /** `compact()` on `T????`. */
  function Compact4<T>(self: Option<Option<Option<Option<T>>>>): (r: Option<T>)
    ensures r.Some? <==> self.Some? && self.value.Some? && self.value.value.Some? && self.value.value.value.Some?
    ensures r.Some? ==> r.value == self.value.value.value.value
  {
    self.GetOr(None).GetOr(None).GetOr(None)
  }

  /** `unwrapOrThrow(_:)`: the payload, or the given error thrown. */
  function UnwrapOrThrow<T, E>(self: Option<T>, error: E): (r: Result<T, E>)
    ensures r.Success? <==> self.Some?
    ensures r.Success? ==> r.value == self.value
    ensures r.Failure? ==> r.error == error
  {
    match self
    case Some(v) => Success(v)
    case None => Failure(error)
  }

  /** `UnwrappingError`; its source location and debug text are not modelled. */
  datatype UnwrappingError = UnexpectedlyFoundNil

  /** `unwrap()`: the payload, or `UnwrappingError.unexpectedlyFoundNil`. */
  function Unwrap<T>(self: Option<T>): (r: Result<T, UnwrappingError>)
    ensures r == UnwrapOrThrow(self, UnexpectedlyFoundNil)
  {
    match self
    case Some(v) => Success(v)
    case None => Failure(UnexpectedlyFoundNil)
  }

  /** `forceUnwrap()`: `try! unwrap()`, which traps on `nil`; the trap is the
      precondition. */
  function ForceUnwrap<T>(self: Option<T>): (r: T)
    requires self.Some?
    ensures Unwrap(self) == Success(r)
  {
    self.value
  }

  /** `lhs !! message`: the payload, or a fatal error carrying `message`; the
      fatal error is the precondition. */
  function UnwrapOrDie<T>(lhs: Option<T>, message: string): (r: T)
    requires lhs.Some?
    ensures Some(r) == lhs
  {
    lhs.value
  }

  /** `isNilOrEmpty`: `nil`, or a collection with no elements. */
  function IsNilOrEmpty<T>(self: Option<seq<T>>): (r: bool)
    ensures r <==> self.None? || |self.value| == 0
  {
    match self
    case Some(c) => |c| == 0
    case None => true
  }

  /** The two `??=` overloads agree when the optional one is given a value,
      and the optional one with `nil` never changes anything. */
  lemma CoalesceOverloadsAgree<T>(lhs: Option<T>, rhs: T)
    ensures CoalesceAssignOptional(lhs, Some(rhs)) == CoalesceAssign(lhs, rhs)
    ensures CoalesceAssignOptional(lhs, None) == lhs
  {
  }

  /** `??=` is idempotent, and a second `??=` never overrides the first. */
  lemma CoalesceAssignIdempotent<T>(lhs: Option<T>, a: T, b: T)
    ensures CoalesceAssign(CoalesceAssign(lhs, a), a) == CoalesceAssign(lhs, a)
    ensures CoalesceAssign(CoalesceAssign(lhs, a), b) == CoalesceAssign(lhs, a)
  {
  }

  /** `wrapped =?? self` and `self.map(into: &wrapped)` do the same thing. */
  lemma MapIntoIsAssignIfSome<T>(self: Option<T>, wrapped: T)
    ensures MapInto(self, wrapped) == AssignIfSome(wrapped, self)
  {
  }

  /** `compact` undoes wrapping, and flattening three levels is flattening
      twice, in either order (join is associative). */
  lemma CompactLaws<T>(x: Option<T>, o: Option<Option<Option<T>>>)
    ensures Compact(Some(x)) == x
    ensures Compact3(o) == Compact(Compact(o))
    ensures Compact3(o) == Compact(MapOption(o, Compact))
  {
  }

  /** `Optional.map`, used to state `CompactLaws` and `MutateIsMap`. */
  function MapOption<T, U>(o: Option<T>, f: T -> U): Option<U> {
    match o
    case Some(v) => Some(f(v))
    case None => None
  }

  /** Unwrapping then discarding the error (`try?`) gives back the optional. */
  lemma UnwrapRoundTrip<T, E>(self: Option<T>, error: E)
    ensures UnwrapOrThrow(self, error).ToOption() == self
    ensures Unwrap(self).ToOption() == self
  {
  }

  /** `remove()` then `??=` with the removed payload restores the optional. */
  lemma RemoveThenRestore<T>(self: Option<T>)
    requires self.Some?
    ensures CoalesceAssign(Remove(self).1, Remove(self).0) == self
  {
  }
}
