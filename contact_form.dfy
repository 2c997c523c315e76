/** The contact form: name, phone and message, a submit button that is enabled
    only when all three are filled and no submission is in flight, a simulated
    send, and a success notice that clears the form when its timer fires. */
module ContactForm {

  datatype FormData = FormData(name: string, phone: string, message: string)

  /** `{ name: '', phone: '', message: '' }`. */
  const EmptyForm: FormData := FormData("", "", "")

  /** The submit button's enabled condition (the negation of its `disabled`
      expression): not submitting, and no field empty. */
  predicate CanSubmit(isSubmitting: bool, data: FormData)
    ensures CanSubmit(isSubmitting, data) ==> !isSubmitting && data != EmptyForm
  {
    !isSubmitting && data.name != "" && data.phone != "" && data.message != ""
  }

  /** Submitting needs all three fields: a form missing any one of them, in
      particular the cleared form, cannot be sent. */
  lemma CanSubmitNeedsEveryField(isSubmitting: bool, data: FormData)
    ensures CanSubmit(isSubmitting, data) ==> !isSubmitting
    ensures data.name == "" || data.phone == "" || data.message == "" ==> !CanSubmit(isSubmitting, data)
    ensures !CanSubmit(isSubmitting, EmptyForm)
  {
  }

  /** The form's state. `pendingResets` counts the success timers that have
      been started and have not fired yet. */
  class Form {
    var data: FormData
    var isSubmitting: bool
    var isSuccess: bool
    var pendingResets: nat

    /** A success notice is on screen only while a timer that will clear it is
        pending. */
    ghost predicate Valid()
      reads this
    {
      isSuccess ==> pendingResets > 0
    }

    constructor ()
      ensures Valid()
      ensures data == EmptyForm && !isSubmitting && !isSuccess && pendingResets == 0
    {
      data := EmptyForm;
      isSubmitting := false;
      isSuccess := false;
      pendingResets := 0;
    }

    predicate SubmitEnabled()
      reads this
    {
      CanSubmit(isSubmitting, data)
    }

    /** Typing in the name field. */
    method EditName(v: string)
      requires Valid()
      modifies this
      ensures Valid()
      ensures data == old(data).(name := v)
      ensures isSubmitting == old(isSubmitting) && isSuccess == old(isSuccess)
      ensures pendingResets == old(pendingResets)
    {
      data := data.(name := v);
    }

    /** Typing in the phone field. */
    method EditPhone(v: string)
      requires Valid()
      modifies this
      ensures Valid()
      ensures data == old(data).(phone := v)
      ensures isSubmitting == old(isSubmitting) && isSuccess == old(isSuccess)
      ensures pendingResets == old(pendingResets)
    {
      data := data.(phone := v);
    }

    /** Typing in the message field. */
    method EditMessage(v: string)
      requires Valid()
      modifies this
      ensures Valid()
      ensures data == old(data).(message := v)
      ensures isSubmitting == old(isSubmitting) && isSuccess == old(isSuccess)
      ensures pendingResets == old(pendingResets)
    {
      data := data.(message := v);
    }

    /** `handleSubmit` up to its `await`: the form can be sent only through the
        enabled button, and sending marks it as submitting. */
    method BeginSubmit()
      requires Valid() && SubmitEnabled()
      modifies this
      ensures Valid()
      ensures isSubmitting && !SubmitEnabled()
      ensures data == old(data) && isSuccess == old(isSuccess)
      ensures pendingResets == old(pendingResets)
    {
      isSubmitting := true;
    }

    /** `handleSubmit` after the simulated request: submitting ends, the
        success notice appears and its timer starts. */
    method FinishSubmit()
      requires Valid() && isSubmitting
      modifies this
      ensures Valid()
      ensures !isSubmitting && isSuccess
      ensures pendingResets == old(pendingResets) + 1
      ensures data == old(data)
    {
      isSubmitting := false;
      isSuccess := true;
      pendingResets := pendingResets + 1;
    }

    /** A success timer fires: the notice goes away and the form is emptied,
        which disables the button until the fields are filled again. */
    method SuccessTimerElapsed()
      requires Valid() && pendingResets > 0
      modifies this
      ensures Valid()
      ensures !isSuccess && data == EmptyForm && !SubmitEnabled()
      ensures isSubmitting == old(isSubmitting)
      ensures pendingResets == old(pendingResets) - 1
    {
      isSuccess := false;
      data := EmptyForm;
      pendingResets := pendingResets - 1;
    }
  }

  /** One whole submission from a filled form: once its timer has fired, the
      form is empty again and no notice is shown. */
  method SubmitOnce(name: string, phone: string, message: string) returns (data: FormData, isSuccess: bool, canSubmit: bool)
    requires name != "" && phone != "" && message != ""
    ensures data == EmptyForm && !isSuccess && !canSubmit
  {
    var form := new Form();
    form.EditName(name);
    form.EditPhone(phone);
    form.EditMessage(message);
    form.BeginSubmit();
    form.FinishSubmit();
    form.SuccessTimerElapsed();
    data, isSuccess, canSubmit := form.data, form.isSuccess, form.SubmitEnabled();
  }
}
