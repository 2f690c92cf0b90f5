/**
 * The input field component: which affordances a render offers for given
 * props, the input's rendered type, and the one local bit `showPassword`.
 *
 * Optional string props (`label`, here `labelText`; `helperText`; `errorMessage`) are strings
 * here, the empty string standing for an absent one: both are falsy in the
 * conditions the component renders by.
 */
module InputFieldComponent {
  import opened Wrappers

  datatype Variant = Filled | Outlined | Ghost
  datatype Size = Sm | Md | Lg

  /** The props; `hasOnChange` says whether an `onChange` callback was supplied. */
  datatype Props = Props(
    value: string,
    hasOnChange: bool,
    labelText: string,
    placeholder: string,
    helperText: string,
    errorMessage: string,
    disabled: bool,
    invalid: bool,
    loading: bool,
    inputType: string,
    variant: Variant,
    size: Size,
    clearable: bool,
    passwordToggle: bool,
    className: string)

  /** The props with every default applied and no callback. */
  const DefaultProps: Props :=
    Props("", false, "", "", "", "", false, false, false, "text", Outlined, Md, false, false, "")

  /** `showPassword` on mount. */
  const InitialShowPassword: bool := false

  /** The change event the field hands to `onChange`; only `target.value` is modelled. */
  datatype ChangeEvent = ChangeEvent(targetValue: string)

  // ---- clear button ----

  predicate ShowClearButton(p: Props)
  {
    p.clearable && p.value != "" && !p.disabled
  }

  /**
   * What a click on the clear button hands to `onChange`: no button is
   * rendered unless it is offered, and no call is made without a callback.
   */
  function ClickClear(p: Props): (r: Option<ChangeEvent>)
    ensures r.Some? <==> p.clearable && p.value != "" && !p.disabled && p.hasOnChange
    ensures r.Some? ==> r.value.targetValue == ""
  {
    if ShowClearButton(p) && p.hasOnChange then Some(ChangeEvent("")) else None
  }

  /**
   * A parent that stores the event's value (as the hosts do) gets a field
   * whose clear button is gone, and nothing else of the props changes.
   */
  lemma ClearThenHidden(p: Props)
    requires ClickClear(p).Some?
    ensures var q := p.(value := ClickClear(p).value.targetValue);
      !ShowClearButton(q) && q == p.(value := "")
  {
  }

  // ---- rendered input ----

  /** The `type` attribute of the rendered input. */
  function InputType(p: Props, showPassword: bool): string
  {
    if p.passwordToggle then (if showPassword then "text" else "password") else p.inputType
  }

  /** The attributes of the rendered input that the model tracks. */
  datatype InputView = InputView(inputType: string, value: string, disabled: bool, placeholder: string)

  function RenderInput(p: Props, showPassword: bool): (v: InputView)
    ensures v.value == p.value && v.disabled == p.disabled && v.placeholder == p.placeholder
  {
    InputView(InputType(p, showPassword), p.value, p.disabled, p.placeholder)
  }

  /**
   * With `passwordToggle` the type follows `showPassword` alone; without it,
   * it is the `type` prop and `showPassword` has no effect.
   */
  lemma InputTypeRule(p: Props, showPassword: bool)
    ensures p.passwordToggle ==> (InputType(p, showPassword) == "text" <==> showPassword)
    ensures p.passwordToggle ==> (InputType(p, showPassword) == "password" <==> !showPassword)
    ensures !p.passwordToggle ==> InputType(p, showPassword) == p.inputType
    ensures !p.passwordToggle ==> InputType(p, !showPassword) == InputType(p, showPassword)
  {
  }

  /** With every default, the input is a plain text input. */
  lemma DefaultIsText(showPassword: bool)
    ensures InputType(DefaultProps, showPassword) == "text"
  {
  }

  /** A field with `passwordToggle` is masked on mount. */
  lemma InitiallyMasked(p: Props)
    requires p.passwordToggle
    ensures InputType(p, InitialShowPassword) == "password"
  {
  }

  /**
   * Flipping `showPassword` changes only the input's type: the value, the
   * disabled flag and the placeholder are those of the props, and so is
   * everything else the field renders.
   */
  lemma ToggleChangesOnlyType(p: Props, showPassword: bool)
    ensures RenderInput(p, !showPassword).(inputType := RenderInput(p, showPassword).inputType)
         == RenderInput(p, showPassword)
    ensures p.passwordToggle ==> RenderInput(p, !showPassword).inputType != RenderInput(p, showPassword).inputType
  {
  }

  /** The spinner is decoration only: loading does not disable the input nor hide the clear button. */
  lemma LoadingDoesNotBlock(p: Props, showPassword: bool)
    ensures RenderInput(p.(loading := !p.loading), showPassword) == RenderInput(p, showPassword)
    ensures ShowClearButton(p.(loading := !p.loading)) == ShowClearButton(p)
  {
  }

  // ---- password toggle ----

  /** The toggle button as the component renders it. */
  predicate ShowPasswordToggle(p: Props)
  {
    p.passwordToggle && p.inputType == "password"
  }

  /**
   * With `passwordToggle` set but `type` left at its default, the field is
   * masked on mount and offers no toggle, so it can never be revealed.
   */
  lemma MaskedWithoutToggle(p: Props)
    requires p.passwordToggle && p.inputType != "password"
    ensures InputType(p, InitialShowPassword) == "password"
    ensures !ShowPasswordToggle(p)
  {
  }

  /** The `PasswordToggle` configuration of the component's stories shows the discrepancy. */
  lemma PasswordToggleStory()
    ensures var story := DefaultProps.(hasOnChange := true, labelText := "Password", placeholder := "Enter password", passwordToggle := true);
      InputType(story, InitialShowPassword) == "password" && !ShowPasswordToggle(story)
  {
  }

  /** The toggle button as evidently intended: offered whenever `passwordToggle` is set. */
  predicate ShowPasswordToggleIntended(p: Props)
  {
    p.passwordToggle
  }

  /**
   * Whenever the toggle feature masks the field, the intended rule offers
   * the toggle, and one click on it reveals the text.
   */
  lemma IntendedToggleCanReveal(p: Props, showPassword: bool)
    requires p.passwordToggle && InputType(p, showPassword) == "password"
    ensures ShowPasswordToggleIntended(p)
    ensures InputType(p, !showPassword) == "text"
  {
  }

  /** Both rules agree whenever the `type` prop is "password". */
  lemma ToggleRulesAgree(p: Props)
    requires p.inputType == "password"
    ensures ShowPasswordToggle(p) == ShowPasswordToggleIntended(p)
  {
  }

  // ---- helper and error text ----

  predicate ShowHelperText(p: Props)
  {
    p.helperText != "" && !p.invalid
  }

  predicate ShowErrorText(p: Props)
  {
    p.invalid && p.errorMessage != ""
  }

  /**
   * Helper and error text are never shown together; an invalid field never
   * shows its helper text, and a valid one never its error message.
   */
  lemma HelperErrorExclusive(p: Props)
    ensures !(ShowHelperText(p) && ShowErrorText(p))
    ensures p.invalid ==> !ShowHelperText(p) && (ShowErrorText(p) <==> p.errorMessage != "")
    ensures !p.invalid ==> !ShowErrorText(p) && (ShowHelperText(p) <==> p.helperText != "")
  {
  }

  // ---- state styling ----

  datatype StateStyle = InvalidStyle | DisabledStyle | NoStateStyle

  function StateClasses(p: Props): StateStyle
  {
    if p.invalid then InvalidStyle
    else if p.disabled then DisabledStyle
    else NoStateStyle
  }

  /** Invalid styling takes precedence over disabled styling. */
  lemma StateStylePrecedence(p: Props)
    ensures StateClasses(p) == InvalidStyle <==> p.invalid
    ensures StateClasses(p) == DisabledStyle <==> p.disabled && !p.invalid
    ensures StateClasses(p) == NoStateStyle <==> !p.disabled && !p.invalid
  {
  }

  /** The local state of one mounted field. */
  class InputField {
    var showPassword: bool

    constructor ()
      ensures showPassword == InitialShowPassword
    {
      showPassword := false;
    }

    /** A click on the toggle button. */
    method ClickPasswordToggle()
      modifies this
      ensures showPassword == !old(showPassword)
    {
      showPassword := !showPassword;
    }

    /** The rendered input for the current state. */
    function View(p: Props): InputView
      reads this
    {
      RenderInput(p, showPassword)
    }
  }

  /** Two clicks on the toggle restore the state and so the rendered input. */
  method ClickTwiceRestores(field: InputField, p: Props)
    modifies field
    ensures field.showPassword == old(field.showPassword)
    ensures field.View(p) == old(field.View(p))
  {
    field.ClickPasswordToggle();
    field.ClickPasswordToggle();
  }
}
