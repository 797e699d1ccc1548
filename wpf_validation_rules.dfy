/** Serial.WPF/ValidationRules/RuleBase.cs: the WPF program's copy of the
    rule base class. */
module WpfRules {
  import opened Base
  import Rules

  /** `RuleBase<T>.Validate(object, CultureInfo)`: a value of type `T` goes,
      with the same culture, to the typed rule; null and values of any other
      type are a type error. */
  function RuleBaseValidate<T>(value: Rules.Boxed<T>, culture: Rules.CultureInfo,
                               typed: (Option<T>, Rules.CultureInfo) -> Rules.ValidationResult): (r: Rules.ValidationResult)
    ensures value.Typed? ==> r == typed(Some(value.value), culture)
    ensures !value.Typed? ==> r == Rules.Invalid(Rules.WrongType)
  {
    if value.Typed? then typed(Some(value.value), culture) else Rules.Invalid(Rules.WrongType)
  }

  /** The copy answers exactly as the earlier program's base class does. */
  lemma SameAsEarlierRuleBase<T>(value: Rules.Boxed<T>, culture: Rules.CultureInfo,
                                 typed: (Option<T>, Rules.CultureInfo) -> Rules.ValidationResult)
    ensures RuleBaseValidate(value, culture, typed) == Rules.RuleBaseValidate(value, culture, typed)
  {
  }
}
