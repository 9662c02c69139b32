/** The admission form: `validateForm` over its required controls, and the
    simulated submission of `handleFormSubmission` as a state machine
    Idle -> Submitting -> Acknowledged, the 2000 ms timer being an explicit
    step. */
module Submission {
  import opened Wrappers
  import opened FieldRules
  import opened FieldState

  const SubmitLabel := "Submit Application"
  const BusyLabel := "Submitting..."

  datatype Phase = Idle | Submitting | Acknowledged

  class Form {
    /** The form's controls, in document order. */
    const fields: seq<Field>
    /** `submitButton.disabled` */
    var buttonDisabled: bool
    /** `submitButton.textContent` */
    var buttonLabel: string
    /** `form.style.display == 'none'` */
    var formHidden: bool
    /** The acknowledgment panel has lost its `d-none` class. */
    var acknowledgmentShown: bool
    /** Timer callbacks scheduled by `setTimeout` that have not run yet. */
    var pendingTimers: nat

    /** The states the page can be in between events: distinct controls, each
        showing at most one message; form and panel swapped together; the
        button busy exactly when disabled, and then a timer is pending. */
    ghost predicate Valid()
      reads this, fields
    {
      && (forall i, j :: 0 <= i < j < |fields| ==> fields[i] != fields[j])
      && (forall i :: 0 <= i < |fields| ==> fields[i].Valid())
      && (formHidden <==> acknowledgmentShown)
      && (buttonLabel == SubmitLabel || buttonLabel == BusyLabel)
      && (buttonDisabled <==> buttonLabel == BusyLabel)
      && (buttonDisabled ==> pendingTimers > 0)
    }

    function CurrentPhase(): Phase
      reads this
    {
      if acknowledgmentShown then Acknowledged
      else if buttonDisabled then Submitting
      else Idle
    }

    /** Every required control passes the rule chain. */
    ghost predicate RequiredFieldsPass(bounds: DateBounds)
      reads this, fields
    {
      forall i :: 0 <= i < |fields| && fields[i].required ==> fields[i].CurrentVerdict(bounds) == Pass
    }

    /** The state after page load: every control error-free, button ready,
        form shown, panel hidden, no timer. */
    constructor (fields: seq<Field>)
      requires forall i, j :: 0 <= i < j < |fields| ==> fields[i] != fields[j]
      requires forall i :: 0 <= i < |fields| ==> fields[i].Valid()
      ensures Valid() && this.fields == fields
      ensures CurrentPhase() == Idle && !buttonDisabled && buttonLabel == SubmitLabel
      ensures !formHidden && !acknowledgmentShown && pendingTimers == 0
    {
      this.fields := fields;
      buttonDisabled := false;
      buttonLabel := SubmitLabel;
      formHidden := false;
      acknowledgmentShown := false;
      pendingTimers := 0;
    }

    /** `validateForm`: validate every required control in order, without
        stopping at the first failure, and return the conjunction. */
    method ValidateForm(bounds: DateBounds) returns (valid: bool)
      requires Valid()
      modifies fields`isInvalid, fields`feedback
      ensures Valid()
      ensures valid <==> RequiredFieldsPass(bounds)
      ensures forall i :: 0 <= i < |fields| && fields[i].required ==> fields[i].Shows(bounds)
      ensures forall i :: 0 <= i < |fields| && !fields[i].required ==>
        fields[i].isInvalid == old(fields[i].isInvalid) && fields[i].feedback == old(fields[i].feedback)
    {
      valid := true;
      var n := 0;
      while n < |fields|
        invariant 0 <= n <= |fields|
        invariant forall i :: 0 <= i < n && fields[i].required ==> fields[i].Shows(bounds)
        invariant forall i :: (n <= i < |fields| || (0 <= i < n && !fields[i].required)) ==>
          fields[i].isInvalid == old(fields[i].isInvalid) && fields[i].feedback == old(fields[i].feedback)
        invariant valid <==> forall i :: 0 <= i < n && fields[i].required ==> !fields[i].isInvalid
      {
        var field := fields[n];
        if field.required {
          assert old(field.Valid()) && field.isInvalid == old(field.isInvalid) && field.feedback == old(field.feedback);
          label before:
          var ok := field.ValidateField(bounds);
          forall i | 0 <= i < |fields| && i != n
            ensures fields[i].isInvalid == old@before(fields[i].isInvalid)
            ensures fields[i].feedback == old@before(fields[i].feedback)
          {
            assert fields[i] != field;
          }
          if !ok {
            valid := false;
          }
        }
        n := n + 1;
      }
      forall i | 0 <= i < |fields| ensures fields[i].Valid() {
        assert old(fields[i].Valid());
      }
    }

    /** `handleFormSubmission`: when the form validates, disable the button,
        show the busy label and schedule the timer; otherwise leave the
        button, the form and the panel as they were. */
    method HandleFormSubmission(bounds: DateBounds) returns (accepted: bool)
      requires Valid()
      modifies this, fields`isInvalid, fields`feedback
      ensures Valid()
      ensures accepted <==> RequiredFieldsPass(bounds)
      ensures forall i :: 0 <= i < |fields| ==>
        fields[i].value == old(fields[i].value) && fields[i].parsedDate == old(fields[i].parsedDate)
      ensures forall i :: 0 <= i < |fields| && fields[i].required ==> fields[i].Shows(bounds)
      ensures forall i :: 0 <= i < |fields| && !fields[i].required ==>
        fields[i].isInvalid == old(fields[i].isInvalid) && fields[i].feedback == old(fields[i].feedback)
      ensures formHidden == old(formHidden) && acknowledgmentShown == old(acknowledgmentShown)
      ensures !accepted ==>
        && buttonDisabled == old(buttonDisabled) && buttonLabel == old(buttonLabel)
        && pendingTimers == old(pendingTimers) && CurrentPhase() == old(CurrentPhase())
      ensures accepted ==>
        && buttonDisabled && buttonLabel == BusyLabel && pendingTimers == old(pendingTimers) + 1
      ensures accepted && old(CurrentPhase()) == Idle ==> CurrentPhase() == Submitting
    {
      accepted := ValidateForm(bounds);
      if !accepted {
        return;
      }
      buttonDisabled := true;
      buttonLabel := BusyLabel;
      pendingTimers := pendingTimers + 1;
    }

    /** The scheduled callback runs: hide the form, show the panel, and
        restore the button. The controls are untouched. */
    method TimerFires()
      requires Valid() && pendingTimers > 0
      modifies this
      ensures Valid()
      ensures formHidden && acknowledgmentShown
      ensures !buttonDisabled && buttonLabel == SubmitLabel
      ensures pendingTimers == old(pendingTimers) - 1
      ensures CurrentPhase() == Acknowledged
    {
      formHidden := true;
      acknowledgmentShown := true;
      buttonDisabled := false;
      buttonLabel := SubmitLabel;
      pendingTimers := pendingTimers - 1;
    }
  }

  /** A fully valid form goes Idle -> Submitting -> Acknowledged: the button
      is disabled while the timer is pending, then the panel replaces the form. */
  method ValidSubmissionRun(bounds: DateBounds) returns (phases: seq<Phase>)
    ensures phases == [Idle, Submitting, Acknowledged]
  {
    var name := new Field("text", true, false, "Ada", None);
    var form := new Form([name]);
    phases := [form.CurrentPhase()];
    var accepted := form.HandleFormSubmission(bounds);
    assert form.fields[0] == name;
    assert accepted;
    assert form.CurrentPhase() == Submitting && form.buttonDisabled && !form.formHidden;
    phases := phases + [form.CurrentPhase()];
    form.TimerFires();
    phases := phases + [form.CurrentPhase()];
    assert form.CurrentPhase() == Acknowledged && form.formHidden && form.acknowledgmentShown;
    assert !form.buttonDisabled && form.pendingTimers == 0;
  }

  /** Submitting with one blank required control keeps the form visible and
      attaches exactly one message, the required message, to that control. */
  method BlankRequiredRun(bounds: DateBounds) returns (accepted: bool, nameFeedback: seq<string>, emailFeedback: seq<string>)
    ensures !accepted
    ensures nameFeedback == [RequiredMessage] && emailFeedback == []
  {
    var name := new Field("text", true, false, "", None);
    var email := new Field("email", false, false, "", None);
    var form := new Form([name, email]);
    accepted := form.HandleFormSubmission(bounds);
    assert form.fields[0] == name && form.fields[1] == email;
    assert !accepted;
    assert form.CurrentPhase() == Idle && !form.formHidden && !form.buttonDisabled;
    assert name.feedback == [RequiredMessage] && name.isInvalid;
    assert email.feedback == [] && !email.isInvalid;
    nameFeedback, emailFeedback := name.feedback, email.feedback;
  }
}
