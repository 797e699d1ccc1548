/** Serial/ValidationRules: the checks on the baud rate and port name typed
    into the settings, and the base class that type-checks the bound value
    before handing it to them. */
module Rules {
  import opened Base
  import opened NetText

  /** `System.Windows.Controls.ValidationResult`. */
  datatype ValidationResult = ValidationResult(isValid: bool, errorContent: Option<string>)

  /** `ValidationResult.ValidResult`. */
  const ValidResult := ValidationResult(true, None)

  /** The culture WPF passes to a rule. */
  datatype CultureInfo = CultureInfo(name: string)

  /** What a bound value is, as `value is T` sees it: null, a `T`, or
      something of another type. */
  datatype Boxed<T> = Null | Typed(value: T) | OtherType

  const NotAnInteger: string := "必须是整数"
  const NotPositive: string := "波特率必须大于零"
  const EmptyPortName: string := "串口名不能为空"
  const WrongType: string := "数据类型错误"

  function Invalid(message: string): ValidationResult {
    ValidationResult(false, Some(message))
  }

  /** `BraudRateRule.Validate(string, CultureInfo)`: valid exactly when the
      text parses as a 32-bit integer above zero; text that does not parse
      (null, no digits, or out of range) gets the integer message, and a
      number of zero or below the positivity message. */
  function BraudRateValidate(value: Option<string>, culture: CultureInfo): (r: ValidationResult)
    ensures r.isValid <==> TryParseInt32(value).Some? && TryParseInt32(value).value > 0
    ensures r.isValid ==> r == ValidResult
    ensures TryParseInt32(value).None? ==> r == Invalid(NotAnInteger)
    ensures TryParseInt32(value).Some? && !r.isValid ==> r == Invalid(NotPositive)
  {
    match TryParseInt32(value)
    case None => Invalid(NotAnInteger)
    case Some(braudRate) =>
      if braudRate > 0 then ValidResult else Invalid(NotPositive)
  }

  /** `PortNameRule.Validate(string, CultureInfo)`: any non-empty name is
      valid, white space alone included; null and the empty name are not. */
  function PortNameValidate(value: Option<string>, culture: CultureInfo): (r: ValidationResult)
    ensures r.isValid <==> value.Some? && |value.value| > 0
    ensures r.isValid ==> r == ValidResult
    ensures !r.isValid ==> r == Invalid(EmptyPortName)
  {
    if value.Some? && value.value != "" then ValidResult else Invalid(EmptyPortName)
  }

  /** `RuleBase<T>.Validate(object, CultureInfo)`: a value of type `T` goes,
      with the same culture, to the typed rule, whose answer is returned as it
      is; null and values of any other type are a type error. */
  function RuleBaseValidate<T>(value: Boxed<T>, culture: CultureInfo,
                               typed: (Option<T>, CultureInfo) -> ValidationResult): (r: ValidationResult)
    ensures value.Typed? ==> r == typed(Some(value.value), culture)
    ensures !value.Typed? ==> r == Invalid(WrongType)
  {
    match value
    case Typed(v) => typed(Some(v), culture)
    case _ => Invalid(WrongType)
  }

  /** Neither rule looks at the culture. */
  lemma CultureIgnored(value: Option<string>, c1: CultureInfo, c2: CultureInfo)
    ensures BraudRateValidate(value, c1) == BraudRateValidate(value, c2)
    ensures PortNameValidate(value, c1) == PortNameValidate(value, c2)
  {
  }

  /** Baud rates written in decimal: 1 to 2147483647 pass, zero and negative
      numbers fail with the positivity message, and numerals beyond the
      32-bit range fail with the integer message. */
  lemma BraudRateOfNumerals(n: nat, culture: CultureInfo)
    ensures 0 < n <= Int32Max ==> BraudRateValidate(Some(Decimal(n)), culture) == ValidResult
    ensures n <= -Int32Min ==> BraudRateValidate(Some("-" + Decimal(n)), culture) == Invalid(NotPositive)
    ensures n == 0 ==> BraudRateValidate(Some(Decimal(n)), culture) == Invalid(NotPositive)
    ensures n > Int32Max ==> BraudRateValidate(Some(Decimal(n)), culture) == Invalid(NotAnInteger)
  {
    TryParseInt32Decimal(n);
  }

  /** Through the object entry point null is a type error, so the typed
      rules' own null branches are never reached from there, while a string
      gets exactly the typed rule's answer. */
  lemma ObjectEntryPoint(s: string, culture: CultureInfo)
    ensures RuleBaseValidate(Null, culture, BraudRateValidate) == Invalid(WrongType)
    ensures RuleBaseValidate(Null, culture, PortNameValidate) == Invalid(WrongType)
    ensures BraudRateValidate(None, culture) == Invalid(NotAnInteger)
    ensures PortNameValidate(None, culture) == Invalid(EmptyPortName)
    ensures RuleBaseValidate(Typed(s), culture, PortNameValidate).isValid <==> s != ""
    ensures RuleBaseValidate(Typed(s), culture, BraudRateValidate) == BraudRateValidate(Some(s), culture)
  {
  }
}
