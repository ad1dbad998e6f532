/** `Trilean`: a three-valued truth type with Kleene's strong three-valued
    negation, conjunction and disjunction, a bijection with `Bool?`, and the
    `boolValue` projection that maps "unknown" to false. */
module Trileans {
  import opened Wrappers
  import opened Numbers

  /** The enum's cases; its `Int8` raw values are given by `RawValue`. */
  datatype Trilean = False | Unknown | True

  /** The raw value: `false` is declared as -1 and the later cases count up,
      so the sign of the raw value is the truth value and zero is unknown. */
  function RawValue(t: Trilean): (r: int)
    ensures -1 <= r <= 1
    ensures r > 0 <==> t == True
    ensures r < 0 <==> t == False
  {
    match t
    case False => -1
    case Unknown => 0
    case True => 1
  }

  /** `Trilean(rawValue:)`, the failable initializer every raw-valued enum has. */
  function FromRawValue(raw: int): (r: Option<Trilean>)
    ensures r.Some? <==> -1 <= raw <= 1
    ensures r.Some? ==> RawValue(r.value) == raw
  {
    if raw == -1 then Some(False)
    else if raw == 0 then Some(Unknown)
    else if raw == 1 then Some(True)
    else None
  }

  /** `description`: the case's own name. */
  function Description(t: Trilean): (r: string)
    ensures t == Unknown ==> r == "unknown"
    ensures t != Unknown ==> r == (if t == True then "true" else "false")
  {
    match t
    case False => "false"
    case Unknown => "unknown"
    case True => "true"
  }

  /** The getter of `value`: the known truth value, or `nil` for unknown. */
  function Value(t: Trilean): (r: Option<bool>)
    ensures r.None? <==> t == Unknown
    ensures r.Some? ==> (r.value <==> t == True)
  {
    match t
    case True => Some(true)
    case False => Some(false)
    case Unknown => None
  }

  /** `Trilean(_: Bool?)`: `nil` becomes unknown, a known value its case. */
  function FromOptional(v: Option<bool>): (r: Trilean)
    ensures Value(r) == v
  {
    match v
    case Some(b) => if b then True else False
    case None => Unknown
  }

  /** The setter of `value`: the old case is discarded entirely. */
  function WithValue(t: Trilean, newValue: Option<bool>): (r: Trilean)
    ensures Value(r) == newValue
    ensures r == FromOptional(newValue)
  {
    match newValue
    case Some(b) => if b then True else False
    case None => Unknown
  }

  /** `init(booleanLiteral:)`: a known value. */
  function FromBool(b: bool): (r: Trilean)
    ensures r != Unknown
    ensures Value(r) == Some(b)
  {
    if b then True else False
  }

  /** `boolValue` (conformance to `Boolean`): `value ?? false`. */
  function BoolValue(t: Trilean): (r: bool)
    ensures r <==> t == True
  {
    Value(t).GetOr(false)
  }

  /** Prefix `!`: negate the known value, keep unknown. Negation is the
      reflection of the raw value about zero. */
  function Not(t: Trilean): (r: Trilean)
    ensures RawValue(r) == -RawValue(t)
  {
    FromOptional(match Value(t) case Some(b) => Some(!b) case None => None)
  }

  /** `&&`: false dominates, then unknown. Kleene conjunction is the minimum
      of the raw values. */
  function And(a: Trilean, b: Trilean): (r: Trilean)
    ensures RawValue(r) == Min(RawValue(a), RawValue(b))
  {
    if a == False || b == False then False
    else if a == Unknown || b == Unknown then Unknown
    else True
  }

  /** `||`: true dominates, then unknown. Kleene disjunction is the maximum
      of the raw values. */
  function Or(a: Trilean, b: Trilean): (r: Trilean)
    ensures RawValue(r) == Max(RawValue(a), RawValue(b))
  {
    if a == True || b == True then True
    else if a == Unknown || b == Unknown then Unknown
    else False
  }

  lemma RawValueRoundTrip(t: Trilean, u: Trilean)
    ensures FromRawValue(RawValue(t)) == Some(t)
    ensures RawValue(t) == RawValue(u) ==> t == u
  {
  }

  /** Distinct cases print distinctly. */
  lemma DescriptionInjective(t: Trilean, u: Trilean)
    ensures Description(t) == Description(u) ==> t == u
  {
  }

  /** `Trilean(_:)` and the `value` getter are inverse bijections with `Bool?`. */
  lemma ValueBijection(t: Trilean, v: Option<bool>)
    ensures Value(FromOptional(v)) == v
    ensures FromOptional(Value(t)) == t
    ensures WithValue(t, Value(t)) == t
  {
  }

  /** The three cases of `!`, and `!` is an involution. */
  lemma NotTable(t: Trilean)
    ensures Not(True) == False && Not(False) == True && Not(Unknown) == Unknown
    ensures Not(Not(t)) == t
  {
  }

  /** The conjunction's cases in the order the operator tests them. */
  lemma AndCases(a: Trilean, b: Trilean)
    ensures And(a, b) == False <==> a == False || b == False
    ensures And(a, b) == Unknown <==> a != False && b != False && (a == Unknown || b == Unknown)
    ensures And(a, b) == True <==> a == True && b == True
  {
  }

  /** The disjunction's cases in the order the operator tests them. */
  lemma OrCases(a: Trilean, b: Trilean)
    ensures Or(a, b) == True <==> a == True || b == True
    ensures Or(a, b) == Unknown <==> a != True && b != True && (a == Unknown || b == Unknown)
    ensures Or(a, b) == False <==> a == False && b == False
  {
  }

  lemma AndOrCommutativeAssociative(a: Trilean, b: Trilean, c: Trilean)
    ensures And(a, b) == And(b, a) && Or(a, b) == Or(b, a)
    ensures And(And(a, b), c) == And(a, And(b, c))
    ensures Or(Or(a, b), c) == Or(a, Or(b, c))
  {
  }

  lemma DeMorgan(a: Trilean, b: Trilean)
    ensures Not(And(a, b)) == Or(Not(a), Not(b))
    ensures Not(Or(a, b)) == And(Not(a), Not(b))
  {
  }

  /** On literals the three operators agree with `Bool`'s. */
  lemma AgreesWithBool(x: bool, y: bool)
    ensures Not(FromBool(x)) == FromBool(!x)
    ensures And(FromBool(x), FromBool(y)) == FromBool(x && y)
    ensures Or(FromBool(x), FromBool(y)) == FromBool(x || y)
  {
  }

  /** `boolValue` commutes with `&&` and `||`, but not with `!`: it sends
      unknown to false, and `!unknown` is still unknown. */
  lemma BoolValueProjection(a: Trilean, b: Trilean)
    ensures BoolValue(And(a, b)) == (BoolValue(a) && BoolValue(b))
    ensures BoolValue(Or(a, b)) == (BoolValue(a) || BoolValue(b))
    ensures !BoolValue(Unknown) && !BoolValue(Not(Unknown))
  {
  }
}
