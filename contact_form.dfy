/** The contact form itself (initContactForm and its helpers in script.js): the
    fields with their error display, the per-field and whole-form validation, the
    blur, input and submit handlers, and the honeypot gate in front of them. */
module ContactForm {
  import opened Options
  import opened Text
  import opened Rules

  /** What the page fixes about a control: its name, its tag, whether it is an
      email input, whether it has the required attribute, and the value that
      form.reset() puts back. A textarea's type is never "email". */
  datatype Control = Control(name: string, tag: Tag, isEmail: bool, required: bool, defaultValue: string)

  /** The error-message box placed right after a control: its text and whether
      it carries the show class. */
  datatype ErrorBox = ErrorBox(text: string, shown: bool)

  /** A control in the page: its current value, whether it has the error class,
      and its error box once one has been created. */
  datatype Field = Field(control: Control, value: string, hasError: bool, box: Option<ErrorBox>)

  /** The name of the honeypot field. */
  const HoneypotName := "website"

  /** The controls the script validates and listens to: every textarea, and every
      input that is not named "website". */
  predicate IsValidated(f: Field) {
    !(f.control.tag == Input && f.control.name == HoneypotName)
  }

  /** The message validateField picks for the field's current value, if any. */
  function ErrorOf(f: Field): Option<string> {
    ChooseError(f.value, f.control.required, f.control.isEmail, f.control.tag)
  }

  // ---------------------------------------------------------------------------
  // One field's display

  /** showFieldError: the error class is on, and the box (made if missing) shows `message`. */
  function Shown(f: Field, message: string): Field {
    f.(hasError := true, box := Some(ErrorBox(message, true)))
  }

  /** clearFieldError: the error class is off and an existing box is hidden; its text stays. */
  function Cleared(f: Field): Field {
    f.(hasError := false, box := if f.box.Some? then Some(f.box.value.(shown := false)) else None)
  }

  /** validateField's effect on a field. */
  function Checked(f: Field): Field {
    match ErrorOf(f)
    case Some(m) => Shown(f, m)
    case None => Cleared(f)
  }

  /** The error class and a visible box go together. */
  predicate Consistent(f: Field) {
    f.hasError <==> (f.box.Some? && f.box.value.shown)
  }

  /** The field displays exactly the verdict on its current value: the chosen
      message in a visible box, or no error class and no visible box. */
  predicate Agrees(f: Field) {
    match ErrorOf(f)
    case Some(m) => f.hasError && f.box == Some(ErrorBox(m, true))
    case None => !f.hasError && (f.box.None? || !f.box.value.shown)
  }

  /** After validateField the field agrees with its value, its flag is the negation
      of the result, and nothing but its display changed. */
  lemma CheckedAgrees(f: Field)
    ensures Agrees(Checked(f)) && Consistent(Checked(f))
    ensures Checked(f).hasError <==> ErrorOf(f).Some?
    ensures Checked(f).control == f.control && Checked(f).value == f.value
  {
  }

  /** validateField leaves a field unchanged exactly when its display already agrees
      with its value. */
  lemma CheckedFixesAgreeing(f: Field)
    ensures Checked(f) == f <==> Agrees(f)
  {
    if Agrees(f) && ErrorOf(f).None? && f.box.Some? {
      assert f.box.value.(shown := false) == f.box.value;
    }
  }

  /** Calling validateField twice on an unchanged field gives the same result and
      the same state as calling it once. */
  lemma CheckedIdempotent(f: Field)
    ensures ErrorOf(Checked(f)) == ErrorOf(f)
    ensures Checked(Checked(f)) == Checked(f)
  {
    CheckedAgrees(f);
    CheckedFixesAgreeing(Checked(f));
  }

  /** clearFieldError turns the error class off and hides the box, and keeps the
      box's text, the value and the control. */
  lemma ClearedHidesOnly(f: Field)
    ensures !Cleared(f).hasError && Consistent(Cleared(f))
    ensures Cleared(f).box.Some? <==> f.box.Some?
    ensures f.box.Some? ==> Cleared(f).box.value == ErrorBox(f.box.value.text, false)
    ensures Cleared(f).control == f.control && Cleared(f).value == f.value
  {
  }

  // ---------------------------------------------------------------------------
  // The whole form

  /** validateForm's effect: every validated field is checked, the others are left alone. */
  function CheckAll(fs: seq<Field>): seq<Field> {
    seq(|fs|, k requires 0 <= k < |fs| => CheckedIfValidated(fs[k]))
  }

  /** What validateForm does to one field. */
  function CheckedIfValidated(f: Field): Field {
    if IsValidated(f) then Checked(f) else f
  }

  /** validateForm's result: no validated field has an error. */
  predicate AllValid(fs: seq<Field>) {
    forall k | 0 <= k < |fs| :: IsValidated(fs[k]) ==> ErrorOf(fs[k]).None?
  }

  /** form.reset(): every value goes back to its default; the error display is untouched. */
  function ResetAll(fs: seq<Field>): seq<Field> {
    seq(|fs|, k requires 0 <= k < |fs| => fs[k].(value := fs[k].control.defaultValue))
  }

  /** clearErrors: no error class and no visible box anywhere in the form. */
  function ClearAll(fs: seq<Field>): seq<Field> {
    seq(|fs|, k requires 0 <= k < |fs| => Cleared(fs[k]))
  }

  /** querySelector('[name="website"]'): the first control with that name, of any tag. */
  function FirstNamed(fs: seq<Field>, name: string): (r: Option<nat>)
    ensures r.None? <==> forall k | 0 <= k < |fs| :: fs[k].control.name != name
    ensures r.Some? ==> r.value < |fs| && fs[r.value].control.name == name
    ensures r.Some? ==> forall k | 0 <= k < r.value :: fs[k].control.name != name
  {
    if fs == [] then None
    else if fs[0].control.name == name then Some(0)
    else match FirstNamed(fs[1..], name)
      case None => None
      case Some(k) => Some(k + 1)
  }

  /** The bot check: the honeypot exists and its raw, untrimmed value is not empty. */
  predicate HoneypotFilled(fs: seq<Field>) {
    match FirstNamed(fs, HoneypotName)
    case None => false
    case Some(k) => fs[k].value != ""
  }

  /** What a submit leaves behind: the fields, and whether the success message fired. */
  datatype Outcome = Outcome(fields: seq<Field>, succeeded: bool)

  /** The submit handler: a filled honeypot resets the form and stops; otherwise
      the form is validated, and only a valid form fires success, is reset and has
      its errors cleared. */
  function Submitted(fs: seq<Field>): Outcome {
    if HoneypotFilled(fs) then Outcome(ResetAll(fs), false)
    else if AllValid(fs) then Outcome(ClearAll(ResetAll(CheckAll(fs))), true)
    else Outcome(CheckAll(fs), false)
  }

  /** Extending a prefix by one field adds that field's verdict to AllValid. */
  lemma AllValidStep(fs: seq<Field>, k: nat)
    requires k < |fs|
    ensures AllValid(fs[..k + 1]) <==> AllValid(fs[..k]) && (IsValidated(fs[k]) ==> ErrorOf(fs[k]).None?)
  {
    assert forall j | 0 <= j < k :: fs[..k + 1][j] == fs[..k][j];
    assert fs[..k + 1][k] == fs[k];
  }

  /** validateForm updates the display of every validated field, not only up to the
      first failure, and touches nothing else. */
  lemma CheckAllVisitsEveryField(fs: seq<Field>)
    ensures |CheckAll(fs)| == |fs|
    ensures forall k | 0 <= k < |fs| ::
      && CheckAll(fs)[k].control == fs[k].control && CheckAll(fs)[k].value == fs[k].value
      && (IsValidated(fs[k]) ==> Agrees(CheckAll(fs)[k]))
      && (!IsValidated(fs[k]) ==> CheckAll(fs)[k] == fs[k])
  {
    forall k | 0 <= k < |fs| ensures IsValidated(fs[k]) ==> Agrees(CheckAll(fs)[k]) {
      CheckedAgrees(fs[k]);
    }
  }

  /** The form is valid exactly when, after validation, no validated field shows an error. */
  lemma AllValidIffNoErrorShown(fs: seq<Field>)
    ensures AllValid(fs) <==> forall k | 0 <= k < |fs| :: IsValidated(fs[k]) ==> !CheckAll(fs)[k].hasError
  {
    forall k | 0 <= k < |fs| ensures IsValidated(fs[k]) ==> (CheckAll(fs)[k].hasError <==> ErrorOf(fs[k]).Some?) {
      CheckedAgrees(fs[k]);
    }
  }

  /** A filled honeypot: no success, every value back to its default, no field
      validated, and every error display exactly as it was. */
  lemma HoneypotSubmitOnlyResets(fs: seq<Field>)
    requires HoneypotFilled(fs)
    ensures !Submitted(fs).succeeded && |Submitted(fs).fields| == |fs|
    ensures forall k | 0 <= k < |fs| ::
      && Submitted(fs).fields[k].value == fs[k].control.defaultValue
      && Submitted(fs).fields[k].control == fs[k].control
      && Submitted(fs).fields[k].hasError == fs[k].hasError
      && Submitted(fs).fields[k].box == fs[k].box
  {
  }

  /** Success fires exactly when the honeypot is empty and every validated field passes. */
  lemma SubmitSucceedsIff(fs: seq<Field>)
    ensures Submitted(fs).succeeded <==> !HoneypotFilled(fs) && AllValid(fs)
  {
  }

  /** After a successful submit every value is back to its default and no field
      has an error class or a visible box. */
  lemma SuccessfulSubmitResets(fs: seq<Field>)
    requires Submitted(fs).succeeded
    ensures |Submitted(fs).fields| == |fs|
    ensures forall k | 0 <= k < |fs| ::
      && Submitted(fs).fields[k].value == fs[k].control.defaultValue
      && !Submitted(fs).fields[k].hasError
      && (Submitted(fs).fields[k].box.None? || !Submitted(fs).fields[k].box.value.shown)
  {
  }

  /** A rejected submit keeps every value, leaves every validated field showing its
      verdict, and shows at least one error. */
  lemma FailedSubmitKeepsValues(fs: seq<Field>)
    requires !HoneypotFilled(fs) && !AllValid(fs)
    ensures !Submitted(fs).succeeded && |Submitted(fs).fields| == |fs|
    ensures forall k | 0 <= k < |fs| :: Submitted(fs).fields[k].value == fs[k].value
    ensures forall k | 0 <= k < |fs| :: IsValidated(fs[k]) ==> Agrees(Submitted(fs).fields[k])
    ensures exists k | 0 <= k < |fs| :: IsValidated(fs[k]) && Submitted(fs).fields[k].hasError
  {
    CheckAllVisitsEveryField(fs);
    AllValidIffNoErrorShown(fs);
  }

  /** Every step of the form keeps each field's error class and visible box together. */
  lemma StepsKeepConsistency(fs: seq<Field>)
    requires forall k | 0 <= k < |fs| :: Consistent(fs[k])
    ensures forall k | 0 <= k < |fs| :: Consistent(CheckAll(fs)[k])
    ensures forall k | 0 <= k < |fs| :: Consistent(ResetAll(fs)[k])
    ensures forall k | 0 <= k < |fs| :: Consistent(ClearAll(fs)[k])
    ensures forall k | 0 <= k < |fs| :: Consistent(Submitted(fs).fields[k])
  {
    forall k | 0 <= k < |fs| ensures Consistent(CheckAll(fs)[k]) {
      CheckedAgrees(fs[k]);
    }
    var c := CheckAll(fs);
    forall k | 0 <= k < |fs| ensures Consistent(ClearAll(ResetAll(c))[k]) {
      ClearedHidesOnly(ResetAll(c)[k]);
    }
  }

  // ---------------------------------------------------------------------------
  // The form as the page holds it

  class Form {
    /** The form's inputs and textareas, in document order. */
    var fields: seq<Field>
    /** How many times the success message has been shown. */
    var successCount: nat

    ghost predicate Valid()
      reads this
    {
      forall k | 0 <= k < |fields| :: Consistent(fields[k])
    }

    /** The page as loaded: every control holds its default value and shows no error. */
    constructor (controls: seq<Control>)
      ensures Valid() && successCount == 0 && |fields| == |controls|
      ensures forall k | 0 <= k < |controls| ::
        fields[k] == Field(controls[k], controls[k].defaultValue, false, None)
    {
      fields := seq(|controls|, k requires 0 <= k < |controls| =>
        Field(controls[k], controls[k].defaultValue, false, None));
      successCount := 0;
    }

    /** The user changes a control's value; the browser does this before an input event. */
    method Edit(i: nat, value: string)
      requires Valid() && i < |fields|
      modifies this
      ensures Valid() && successCount == old(successCount)
      ensures fields == old(fields)[i := old(fields)[i].(value := value)]
    {
      fields := fields[i := fields[i].(value := value)];
    }

    /** showFieldError. */
    method ShowFieldError(i: nat, message: string)
      requires Valid() && i < |fields|
      modifies this
      ensures Valid() && successCount == old(successCount)
      ensures fields == old(fields)[i := Shown(old(fields)[i], message)]
    {
      var f := fields[i].(hasError := true);
      var box := if f.box.Some? then f.box.value else ErrorBox("", false);
      box := box.(text := message);
      box := box.(shown := true);
      fields := fields[i := f.(box := Some(box))];
    }

    /** clearFieldError. */
    method ClearFieldError(i: nat)
      requires Valid() && i < |fields|
      modifies this
      ensures Valid() && successCount == old(successCount)
      ensures fields == old(fields)[i := Cleared(old(fields)[i])]
    {
      var f := fields[i].(hasError := false);
      if f.box.Some? {
        f := f.(box := Some(f.box.value.(shown := false)));
      }
      fields := fields[i := f];
    }

    /** validateField: false exactly when a message was chosen, which is then shown;
        otherwise the field's error is cleared. */
    method ValidateField(i: nat) returns (ok: bool)
      requires Valid() && i < |fields|
      modifies this
      ensures Valid() && successCount == old(successCount)
      ensures ok <==> ErrorOf(old(fields)[i]).None?
      ensures fields == old(fields)[i := Checked(old(fields)[i])]
    {
      var error := ErrorOf(fields[i]);
      if error.Some? {
        ShowFieldError(i, error.value);
        ok := false;
      } else {
        ClearFieldError(i);
        ok := true;
      }
    }

    /** validateForm: validates every validated field in order, without stopping at
        the first failure, and reports whether all passed. */
    method ValidateForm() returns (isValid: bool)
      requires Valid()
      modifies this
      ensures Valid() && successCount == old(successCount)
      ensures isValid == AllValid(old(fields))
      ensures fields == CheckAll(old(fields))
    {
      ghost var before := fields;
      isValid := true;
      var k := 0;
      while k < |fields|
        invariant 0 <= k <= |fields| == |before|
        invariant Valid() && successCount == old(successCount)
        invariant forall j | 0 <= j < k :: fields[j] == CheckedIfValidated(before[j])
        invariant forall j | k <= j < |fields| :: fields[j] == before[j]
        invariant isValid == AllValid(before[..k])
      {
        AllValidStep(before, k);
        if IsValidated(fields[k]) {
          var ok := ValidateField(k);
          if !ok {
            isValid := false;
          }
        }
        k := k + 1;
      }
      assert before[..k] == before;
      assert forall j | 0 <= j < |fields| :: fields[j] == CheckAll(before)[j];
    }

    /** clearErrors: first hides every error box, then removes every error class. */
    method ClearErrors()
      requires Valid()
      modifies this
      ensures Valid() && successCount == old(successCount)
      ensures fields == ClearAll(old(fields))
    {
      ghost var before := fields;
      var k := 0;
      while k < |fields|
        invariant 0 <= k <= |fields| == |before| && successCount == old(successCount)
        invariant forall j | 0 <= j < |fields| :: fields[j].hasError == before[j].hasError
        invariant forall j | 0 <= j < k :: fields[j].box == Cleared(before[j]).box
        invariant forall j | k <= j < |fields| :: fields[j] == before[j]
        invariant forall j | 0 <= j < |fields| :: fields[j].control == before[j].control && fields[j].value == before[j].value
      {
        if fields[k].box.Some? {
          fields := fields[k := fields[k].(box := Some(fields[k].box.value.(shown := false)))];
        }
        k := k + 1;
      }
      k := 0;
      while k < |fields|
        invariant 0 <= k <= |fields| == |before| && successCount == old(successCount)
        invariant forall j | 0 <= j < |fields| :: fields[j].box == Cleared(before[j]).box
        invariant forall j | 0 <= j < k :: !fields[j].hasError
        invariant forall j | k <= j < |fields| :: fields[j].hasError == before[j].hasError
        invariant forall j | 0 <= j < |fields| :: fields[j].control == before[j].control && fields[j].value == before[j].value
      {
        if fields[k].hasError {
          fields := fields[k := fields[k].(hasError := false)];
        }
        k := k + 1;
      }
      forall j | 0 <= j < |fields| ensures fields[j] == Cleared(before[j]) && Consistent(fields[j]) {
        ClearedHidesOnly(before[j]);
      }
      assert fields == ClearAll(before);
    }

    /** form.reset(). */
    method ResetForm()
      requires Valid()
      modifies this
      ensures Valid() && successCount == old(successCount)
      ensures fields == ResetAll(old(fields))
    {
      fields := ResetAll(fields);
    }

    /** showSuccessMessage, reduced to the fact that it fired. */
    method ShowSuccessMessage()
      modifies this
      ensures fields == old(fields) && successCount == old(successCount) + 1
    {
      successCount := successCount + 1;
    }

    /** The blur handler: validates the field if the script listens to it. */
    method OnBlur(i: nat)
      requires Valid() && i < |fields|
      modifies this
      ensures Valid() && successCount == old(successCount)
      ensures fields == old(fields)[i := if IsValidated(old(fields)[i]) then Checked(old(fields)[i]) else old(fields)[i]]
    {
      if IsValidated(fields[i]) {
        var _ := ValidateField(i);
      }
    }

    /** The input handler: hides the field's error at once, without validating it. */
    method OnInput(i: nat)
      requires Valid() && i < |fields|
      modifies this
      ensures Valid() && successCount == old(successCount)
      ensures fields == old(fields)[i := if IsValidated(old(fields)[i]) then Cleared(old(fields)[i]) else old(fields)[i]]
    {
      if IsValidated(fields[i]) {
        ClearFieldError(i);
      }
    }

    /** The submit handler. */
    method OnSubmit()
      requires Valid()
      modifies this
      ensures Valid()
      ensures fields == Submitted(old(fields)).fields
      ensures successCount == old(successCount) + (if Submitted(old(fields)).succeeded then 1 else 0)
    {
      var honeypot := FirstNamed(fields, HoneypotName);
      if honeypot.Some? && fields[honeypot.value].value != "" {
        ResetForm();
        return;
      }
      var isValid := ValidateForm();
      if isValid {
        ShowSuccessMessage();
        ResetForm();
        ClearErrors();
      }
    }
  }
}
