/** One form control and what the page shows about it: the `is-invalid`
    class on the control and the `.invalid-feedback` nodes in its container.
    Each control sits alone in its container, so the container's feedback
    nodes belong to it. */
module FieldState {
  import opened Wrappers
  import opened FieldRules
  import opened PhoneFormat

  /** The feedback text a verdict puts on the page. */
  function Messages(v: Verdict): (ms: seq<string>)
    ensures |ms| <= 1
    ensures ms == [] <==> v == Pass
  {
    if v.Fail? then [v.message] else []
  }

  /** The container's feedback list after `querySelector('.invalid-feedback')?.remove()`:
      the first node, if any, is gone. */
  function DropFirst(ms: seq<string>): (r: seq<string>)
    ensures ms == [] ==> r == []
    ensures ms != [] ==> ms == [ms[0]] + r
    ensures |ms| <= 1 ==> r == []
  {
    if |ms| > 0 then ms[1..] else ms
  }

  class Field {
    /** `field.type` */
    const inputType: string
    /** `field.required` */
    const required: bool
    /** True for the contact-number input, which carries the phone mask. */
    const masked: bool
    /** `field.value`, untrimmed. */
    var value: string
    /** What `new Date(value.trim())` gives, as a day number; `None` for an invalid date. */
    var parsedDate: Option<int>
    /** Whether the class list holds `is-invalid`. */
    var isInvalid: bool
    /** Texts of the `.invalid-feedback` nodes in the container, in document order. */
    var feedback: seq<string>

    /** What the page can show between events: at most one message, and the
        error class exactly when there is one. */
    ghost predicate Valid()
      reads this
    {
      |feedback| <= 1 && (isInvalid <==> |feedback| == 1)
    }

    constructor (inputType: string, required: bool, masked: bool, value: string, parsedDate: Option<int>)
      ensures Valid()
      ensures this.inputType == inputType && this.required == required && this.masked == masked
      ensures this.value == value && this.parsedDate == parsedDate
      ensures !isInvalid && feedback == []
    {
      this.inputType := inputType;
      this.required := required;
      this.masked := masked;
      this.value := value;
      this.parsedDate := parsedDate;
      isInvalid := false;
      feedback := [];
    }

    /** The verdict of the rule chain on the current value. */
    function CurrentVerdict(bounds: DateBounds): (v: Verdict)
      reads this`value, this`parsedDate
    {
      Check(inputType, required, value, parsedDate, bounds)
    }

    /** The page shows exactly what the rule chain says about the value. */
    ghost predicate Shows(bounds: DateBounds)
      reads this
    {
      isInvalid == (CurrentVerdict(bounds) != Pass) && feedback == Messages(CurrentVerdict(bounds))
    }

    /** `clearFieldError`: drop the error class and the first feedback node. */
    method ClearFieldError()
      modifies this`isInvalid, this`feedback
      ensures !isInvalid
      ensures feedback == DropFirst(old(feedback))
      ensures old(Valid()) ==> Valid() && feedback == []
    {
      isInvalid := false;
      feedback := DropFirst(feedback);
    }

    /** `showFieldError`: add the error class and append one feedback node. */
    method ShowFieldError(message: string)
      modifies this`isInvalid, this`feedback
      ensures isInvalid
      ensures feedback == old(feedback) + [message]
    {
      isInvalid := true;
      feedback := feedback + [message];
    }

    /** `validateField`: clear the old error, run the rule chain, and show its
        message when it fails. The value itself is not touched. */
    method ValidateField(bounds: DateBounds) returns (ok: bool)
      modifies this`isInvalid, this`feedback
      ensures ok <==> CurrentVerdict(bounds) == Pass
      ensures isInvalid == !ok
      ensures feedback == DropFirst(old(feedback)) + Messages(CurrentVerdict(bounds))
      ensures old(Valid()) ==> Valid() && feedback == Messages(CurrentVerdict(bounds))
    {
      ClearFieldError();
      var v := Check(inputType, required, value, parsedDate, bounds);
      ok := v == Pass;
      if !ok {
        ShowFieldError(v.message);
      }
    }

    /** An `input` event: the browser stores what was typed, the listener
        added first clears the error, and on the contact-number field the
        listener added next replaces the value by its mask. */
    method OnInput(typed: string, parsed: Option<int>)
      modifies this
      ensures value == (if masked then FormatPhoneNumber(typed) else typed)
      ensures parsedDate == parsed
      ensures !isInvalid && feedback == DropFirst(old(feedback))
      ensures old(Valid()) ==> Valid() && feedback == []
    {
      value := typed;
      parsedDate := parsed;
      ClearFieldError();
      if masked {
        value := FormatPhoneNumber(value);
      }
    }
  }

  /** Blurring a field twice without typing shows the same single message:
      each pass removes the node the previous pass added. */
  method RepeatedBlur(f: Field, bounds: DateBounds) returns (first: seq<string>, second: seq<string>)
    requires f.Valid()
    modifies f
    ensures first == second == Messages(f.CurrentVerdict(bounds))
    ensures |second| <= 1
  {
    var ok1 := f.ValidateField(bounds);
    first := f.feedback;
    var ok2 := f.ValidateField(bounds);
    second := f.feedback;
  }
}
