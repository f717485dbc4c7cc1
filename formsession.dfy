/**
 * The state the form's script keeps between events: the time of the first
 * focus on an input (`formStartTime`, `null` until then) and the message box
 * that the submit handler fills. The clock is a parameter of the handlers
 * that read it.
 */
module FormSession {
  import opened Wrappers
  import opened SubmitErrors

  /** The message box: hidden until the first submit, then an error or a success. */
  datatype MessageKind = Hidden | ErrorBox | SuccessBox

  const SuccessHtml: string := "✅ Form submitted successfully!"

  class Form {
    /** Milliseconds of the first focus since the last successful submit, if any. */
    var formStartTime: Option<int>
    var messageHtml: string
    var messageKind: MessageKind

    constructor ()
      ensures formStartTime == None && messageKind == Hidden && messageHtml == ""
    {
      formStartTime := None;
      messageHtml := "";
      messageKind := Hidden;
    }

    /** `focusin` on an input at time `now`: only the first focus is recorded. */
    method OnFocus(now: int)
      modifies this
      ensures formStartTime == if old(formStartTime).None? then Some(now) else old(formStartTime)
      ensures messageHtml == old(messageHtml) && messageKind == old(messageKind)
    {
      if formStartTime == None {
        formStartTime := Some(now);
      }
    }

    /**
     * `submit`: validates the four raw input values; shows the error list, or
     * shows the success message and forgets the start time.
     */
    method OnSubmit(emailInput: string, phoneInput: string, passwordInput: string, confirmInput: string)
      returns (errors: seq<Error>)
      modifies this
      ensures errors == ExpectedErrors(ReadFields(emailInput, phoneInput, passwordInput, confirmInput))
      ensures if errors == [] then
          messageKind == SuccessBox && messageHtml == SuccessHtml && formStartTime == None
        else
          messageKind == ErrorBox && messageHtml == ErrorListHtml(errors) && formStartTime == old(formStartTime)
    {
      errors := Validate(emailInput, phoneInput, passwordInput, confirmInput);
      Show(errors);
    }

    /** Shows the outcome of a validation pass. */
    method Show(errors: seq<Error>)
      modifies this
      ensures if errors == [] then
          messageKind == SuccessBox && messageHtml == SuccessHtml && formStartTime == None
        else
          messageKind == ErrorBox && messageHtml == ErrorListHtml(errors) && formStartTime == old(formStartTime)
    {
      if errors != [] {
        messageHtml := ErrorListHtml(errors);
        messageKind := ErrorBox;
      } else {
        messageHtml := SuccessHtml;
        messageKind := SuccessBox;
        formStartTime := None;
      }
    }
  }

  /**
   * A fresh form focused at `t1` and again at `t2`, then submitted with the
   * given inputs, then focused at `t3`: the second focus is ignored, a
   * rejected submit keeps the first start time and an accepted one lets the
   * next focus start a new measurement.
   */
  method FocusSubmitFocus(t1: int, t2: int, t3: int,
                          emailInput: string, phoneInput: string, passwordInput: string, confirmInput: string)
    returns (afterFocus: Option<int>, accepted: bool, afterSubmit: Option<int>, afterRefocus: Option<int>)
    ensures afterFocus == Some(t1)
    ensures accepted <==>
      ExpectedErrors(ReadFields(emailInput, phoneInput, passwordInput, confirmInput)) == []
    ensures afterSubmit == if accepted then None else Some(t1)
    ensures afterRefocus == if accepted then Some(t3) else Some(t1)
  {
    var form := new Form();
    form.OnFocus(t1);
    form.OnFocus(t2);
    afterFocus := form.formStartTime;
    var errors := form.OnSubmit(emailInput, phoneInput, passwordInput, confirmInput);
    accepted := errors == [];
    afterSubmit := form.formStartTime;
    form.OnFocus(t3);
    afterRefocus := form.formStartTime;
  }
}
