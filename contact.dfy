/**
 * The contact form: three text fields, the `isLoading` and `sent` flags of a
 * submission to the mail relay, the submit button derived from those flags,
 * and the section's visibility latch.
 */
module Contact {

  /** The `name` attribute of each input. */
  datatype Field = Name | Email | Message

  /** The object handed to the mail relay. */
  datatype Payload = Payload(name: string, email: string, message: string)

  /** How the awaited relay call ends. */
  datatype RelayOutcome = Resolved | Rejected

  /** `disabled={isLoading || sent}` */
  function ButtonDisabled(isLoading: bool, sent: bool): bool
  {
    isLoading || sent
  }

  /** `sent ? "Sent!" : isLoading ? "Sending..." : "Send Message"` */
  function ButtonLabel(isLoading: bool, sent: bool): (caption: string)
    ensures caption == "Send Message" <==> !ButtonDisabled(isLoading, sent)
    ensures caption == "Sent!" <==> sent
    ensures caption == "Sending..." <==> isLoading && !sent
  {
    if sent then "Sent!" else if isLoading then "Sending..." else "Send Message"
  }

  /** The form component's state cells. */
  class ContactForm {
    var name: string
    var email: string
    var message: string
    var isLoading: bool
    var sent: bool
    var isVisible: bool

    function FieldValue(f: Field): string
      reads this
    {
      match f
      case Name => name
      case Email => email
      case Message => message
    }

    /** The payload built from the current fields. */
    function CurrentPayload(): (p: Payload)
      reads this
      ensures p.name == FieldValue(Name) && p.email == FieldValue(Email) && p.message == FieldValue(Message)
    {
      Payload(name, email, message)
    }

    constructor ()
      ensures name == "" && email == "" && message == ""
      ensures !isLoading && !sent && !isVisible
    {
      name, email, message := "", "", "";
      isLoading, sent, isVisible := false, false, false;
    }

    /** `handleInputChange`: only the field named by the input takes the new value. */
    method HandleInputChange(field: Field, value: string)
      modifies this`name, this`email, this`message
      ensures FieldValue(field) == value
      ensures forall f :: f != field ==> FieldValue(f) == old(FieldValue(f))
    {
      match field
      case Name => name := value;
      case Email => email := value;
      case Message => message := value;
    }

    /**
     * The part of `handleSubmit` before the relay call is awaited: the
     * loading flag goes up and the payload is taken from the current fields.
     */
    method BeginSubmit() returns (payload: Payload)
      modifies this`isLoading
      ensures isLoading
      ensures payload == Payload(name, email, message)
    {
      isLoading := true;
      payload := Payload(name, email, message);
    }

    /**
     * The part of `handleSubmit` after the relay call settles: on success the
     * fields are cleared and `sent` is set; on failure both are kept; in
     * either case the loading flag comes down.
     */
    method FinishSubmit(outcome: RelayOutcome)
      modifies this`name, this`email, this`message, this`isLoading, this`sent
      ensures !isLoading
      ensures outcome == Resolved ==> name == "" && email == "" && message == "" && sent
      ensures outcome == Rejected ==>
                name == old(name) && email == old(email) && message == old(message) && sent == old(sent)
    {
      if outcome == Resolved {
        name, email, message := "", "", "";
        sent := true;
      }
      isLoading := false;
    }

    /** The 2.5-second timer started by a successful submission. */
    method SentTimerElapsed()
      modifies this`sent
      ensures !sent
    {
      sent := false;
    }

    /** The intersection observer callback: the flag is only ever raised. */
    method Observe(isIntersecting: bool)
      modifies this`isVisible
      ensures isVisible == (old(isVisible) || isIntersecting)
    {
      if isIntersecting {
        isVisible := true;
      }
    }

    /** The submit button as rendered. */
    function Button(): (b: (bool, string))
      reads this
      ensures b.0 <==> b.1 != "Send Message"
    {
      (ButtonDisabled(isLoading, sent), ButtonLabel(isLoading, sent))
    }
  }

  /**
   * A whole submission: the payload is exactly the fields at the time of the
   * submit, the button is disabled while the call is in flight, and the
   * outcome decides what is left.
   */
  method SubmitOnce(form: ContactForm, outcome: RelayOutcome) returns (payload: Payload, disabledInFlight: bool)
    modifies form`name, form`email, form`message, form`isLoading, form`sent
    ensures payload == old(form.CurrentPayload())
    ensures disabledInFlight
    ensures !form.isLoading
    ensures outcome == Resolved ==> form.CurrentPayload() == Payload("", "", "") && form.sent
    ensures outcome == Resolved ==> form.Button() == (true, "Sent!")
    ensures outcome == Rejected ==> form.CurrentPayload() == payload && form.sent == old(form.sent)
  {
    payload := form.BeginSubmit();
    disabledInFlight := ButtonDisabled(form.isLoading, form.sent);
    form.FinishSubmit(outcome);
  }
}
