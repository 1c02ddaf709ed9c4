/** Validation rules: predicates over a const `ConfigValue`.

    The library's rules are the function objects `GreaterThanZero`,
    `GreaterThanOrEqualToZero`, `BetweenValues(min, max)` and `InList(values)`,
    plus `custom<T>(check)`, which wraps a check on the payload of one kind.
    Each is a closed variant here and `Evaluate` is its call operator. A rule
    receives the value by const reference, so evaluating it is a pure
    function of the value and of the rule's own parameters.
 */
module ValidationRules {
  import opened Outcomes
  import opened ConfigValues
  import Strings

  /** The `customCheck` of `custom<T>`, one alternative per kind `T`. */
  datatype CustomCheck =
    | OnInt(intCheck: int -> bool)
    | OnFloat(floatCheck: real -> bool)
    | OnText(textCheck: string -> bool)
    | OnFloatList(listCheck: seq<real> -> bool)
  {
    /** The `T` the check is written for. */
    function KindOf(): Kind {
      match this
      case OnInt(_) => IntKind
      case OnFloat(_) => FloatKind
      case OnText(_) => TextKind
      case OnFloatList(_) => FloatListKind
    }
  }

  datatype Rule =
    | GreaterThanZero
    | GreaterThanOrEqualToZero
    | BetweenValues(min: real, max: real)
    | InList(allowed: seq<string>)
    | Custom(check: CustomCheck)
  {
    /** The three rules that compare a number against bounds. */
    predicate IsNumeric() {
      GreaterThanZero? || GreaterThanOrEqualToZero? || BetweenValues?
    }
  }

  /** `custom<T>`: false unless the value holds a `T`, and then the check. */
  function CustomAccepts(c: CustomCheck, v: Value): bool
  {
    match (c, v)
    case (OnInt(f), Int(i)) => f(i)
    case (OnFloat(f), Float(x)) => f(x)
    case (OnText(f), Text(s)) => f(s)
    case (OnFloatList(f), FloatList(xs)) => f(xs)
    case _ => false
  }

  /** The rule's `operator()`. The numeric rules try the `int`, `double` and
      `std::string` downcasts in turn; a string is read with `std::stod`,
      whose failure is caught and answered with false. */
  function Evaluate(conv: Conversions, rule: Rule, v: Value): bool
  {
    match rule
    case GreaterThanZero =>
      (match v
       case Int(i) => i > 0
       case Float(x) => x > 0.0
       case Text(s) => (match conv.stod(s) case Some(x) => x > 0.0 case None => false)
       case FloatList(_) => false)
    case GreaterThanOrEqualToZero =>
      (match v
       case Int(i) => i >= 0
       case Float(x) => x >= 0.0
       case Text(s) => (match conv.stod(s) case Some(x) => x >= 0.0 case None => false)
       case FloatList(_) => false)
    case BetweenValues(lo, hi) =>
      (match v
       case Int(i) => i as real >= lo && i as real <= hi
       case Float(x) => x >= lo && x <= hi
       case Text(s) => (match conv.stod(s) case Some(x) => x >= lo && x <= hi case None => false)
       case FloatList(_) => false)
    case InList(allowed) =>
      (match v
       case Text(s) => s in allowed
       case _ => false)
    case Custom(c) => CustomAccepts(c, v)
  }

  /** `BetweenValues::toString`: the bounds as an output stream writes them. */
  function BetweenValuesDescription(conv: Conversions, lo: real, hi: real): string
  {
    "Must be between " + conv.streamText(lo) + " and " + conv.streamText(hi)
  }

  /** `InList::toString`: the allowed texts with `", "` between them. */
  function InListDescription(allowed: seq<string>): string
  {
    "Must be one of: " + Strings.Join(allowed, ", ")
  }

  /** A numeric rule treats a Text value as the number `std::stod` reads from
      it and compares that exactly as it would a Float; text that does not
      convert is rejected, never an error. */
  lemma TextIsReadAsNumber(conv: Conversions, rule: Rule, s: string)
    requires rule.IsNumeric()
    ensures Evaluate(conv, rule, Text(s)) <==>
              conv.stod(s).Some? && Evaluate(conv, rule, Float(conv.stod(s).value))
  {
  }

  /** A numeric rule compares an Int as the real number it denotes. */
  lemma IntIsComparedAsReal(conv: Conversions, rule: Rule, i: int)
    requires rule.IsNumeric()
    ensures Evaluate(conv, rule, Int(i)) == Evaluate(conv, rule, Float(i as real))
  {
  }

  /** No numeric rule accepts a FloatList. */
  lemma NumericRulesRejectLists(conv: Conversions, rule: Rule, xs: seq<real>)
    requires rule.IsNumeric()
    ensures !Evaluate(conv, rule, FloatList(xs))
  {
  }

  /** Every value `GreaterThanZero` accepts, `GreaterThanOrEqualToZero`
      accepts too; zero, of either numeric kind, separates the two. */
  lemma PositiveIsNonNegative(conv: Conversions, v: Value)
    ensures Evaluate(conv, GreaterThanZero, v) ==> Evaluate(conv, GreaterThanOrEqualToZero, v)
    ensures Evaluate(conv, GreaterThanOrEqualToZero, Int(0)) && !Evaluate(conv, GreaterThanZero, Int(0))
    ensures Evaluate(conv, GreaterThanOrEqualToZero, Float(0.0)) && !Evaluate(conv, GreaterThanZero, Float(0.0))
  {
  }

  /** `BetweenValues` includes both of its bounds, and nothing outside them. */
  lemma BetweenIsInclusive(conv: Conversions, lo: real, hi: real, x: real)
    requires lo <= hi
    ensures Evaluate(conv, BetweenValues(lo, hi), Float(lo))
    ensures Evaluate(conv, BetweenValues(lo, hi), Float(hi))
    ensures x < lo || hi < x ==> !Evaluate(conv, BetweenValues(lo, hi), Float(x))
  {
  }

  /** A range starting at or above zero is at least as strict as
      `GreaterThanOrEqualToZero`, and one starting above zero at least as
      strict as `GreaterThanZero`, for every kind of value. */
  lemma BetweenImpliesSign(conv: Conversions, lo: real, hi: real, v: Value)
    ensures 0.0 <= lo && Evaluate(conv, BetweenValues(lo, hi), v) ==> Evaluate(conv, GreaterThanOrEqualToZero, v)
    ensures 0.0 < lo && Evaluate(conv, BetweenValues(lo, hi), v) ==> Evaluate(conv, GreaterThanZero, v)
  {
  }

  /** `InList` accepts exactly the Text values equal to one of its entries
      (the `std::find` search); values of other kinds never pass. */
  lemma InListAcceptsListedText(conv: Conversions, allowed: seq<string>, v: Value)
    ensures Evaluate(conv, InList(allowed), v) <==>
              v.Text? && exists k :: 0 <= k < |allowed| && allowed[k] == v.s
  {
  }

  /** `custom<T>` rejects every value not of kind `T` and, on a value of kind
      `T`, answers exactly what the check answers on the payload. */
  lemma CustomIsKindGuarded(conv: Conversions, c: CustomCheck, v: Value)
    ensures v.KindOf() != c.KindOf() ==> !Evaluate(conv, Custom(c), v)
    ensures c.OnInt? && v.Int? ==> Evaluate(conv, Custom(c), v) == c.intCheck(v.i)
    ensures c.OnFloat? && v.Float? ==> Evaluate(conv, Custom(c), v) == c.floatCheck(v.x)
    ensures c.OnText? && v.Text? ==> Evaluate(conv, Custom(c), v) == c.textCheck(v.s)
    ensures c.OnFloatList? && v.FloatList? ==> Evaluate(conv, Custom(c), v) == c.listCheck(v.xs)
  {
  }

  /** The `InList` description lists its entries with no trailing separator:
      an empty list leaves only the prefix, and one more entry adds `", "`
      and the entry after the previous description. */
  lemma InListDescriptionShape(allowed: seq<string>, a: string)
    ensures InListDescription([]) == "Must be one of: "
    ensures InListDescription([a]) == "Must be one of: " + a
    ensures allowed != [] ==> InListDescription(allowed + [a]) == InListDescription(allowed) + ", " + a
  {
    if allowed != [] {
      Strings.JoinAppend(allowed, ", ", a);
    }
  }
}
