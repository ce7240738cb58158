/** The new-booking form: its record of text fields, the error map shown
    under the inputs, the input and slot-selection transitions, the validator
    and the reset after a successful submit. */
module BookingForm {
  import opened Wrappers
  import opened Text
  import opened EmailPattern

  /** The names of the form's inputs. */
  datatype Field = CustomerName | CustomerEmail | CustomerPhone | Service | Staff | Date | Time | Notes

  /** The form record. `service` and `staff` hold the chosen catalog id as
      the text of the `<select>` option, "" while nothing is chosen. */
  datatype Form = Form(
    customerName: string,
    customerEmail: string,
    customerPhone: string,
    service: string,
    staff: string,
    date: string,
    time: string,
    notes: string)

  /** The error map: a field may be absent (`undefined`), hold a message, or
      have been cleared to `null`, written `None` here. */
  type Errors = map<Field, Option<string>>

  datatype State = State(form: Form, errors: Errors)

  /** `form[k]`. */
  function Get(f: Form, k: Field): string {
    match k
    case CustomerName => f.customerName
    case CustomerEmail => f.customerEmail
    case CustomerPhone => f.customerPhone
    case Service => f.service
    case Staff => f.staff
    case Date => f.date
    case Time => f.time
    case Notes => f.notes
  }

  /** `{ ...f, [k]: v }`. */
  function Put(f: Form, k: Field, v: string): (r: Form)
    ensures Get(r, k) == v
    ensures forall o :: o != k ==> Get(r, o) == Get(f, o)
  {
    match k
    case CustomerName => f.(customerName := v)
    case CustomerEmail => f.(customerEmail := v)
    case CustomerPhone => f.(customerPhone := v)
    case Service => f.(service := v)
    case Staff => f.(staff := v)
    case Date => f.(date := v)
    case Time => f.(time := v)
    case Notes => f.(notes := v)
  }

  /** Writing a field back with the value it already holds changes nothing,
      and a second write to the same field replaces the first. */
  lemma PutLaws(f: Form, k: Field, v: string, w: string)
    ensures Put(f, k, Get(f, k)) == f
    ensures Put(Put(f, k, v), k, w) == Put(f, k, w)
  {
  }

  /** Whether `errors[k]` is truthy: present and a non-empty message. */
  predicate Flagged(e: Errors, k: Field) {
    k in e && e[k].Some? && e[k].value != ""
  }

  /** `handleInputChange`: store the typed value, and if that field shows an
      error, set it to `null`. */
  function HandleInputChange(st: State, k: Field, v: string): (r: State)
    ensures Get(r.form, k) == v
    ensures forall o :: o != k ==> Get(r.form, o) == Get(st.form, o)
    ensures !Flagged(r.errors, k)
    ensures Flagged(st.errors, k) ==> k in r.errors && r.errors[k] == None
    ensures !Flagged(st.errors, k) ==> r.errors == st.errors
    ensures r.errors.Keys == st.errors.Keys
    ensures forall o :: o != k && o in st.errors ==> r.errors[o] == st.errors[o]
  {
    var errors := if Flagged(st.errors, k) then st.errors[k := None] else st.errors;
    State(Put(st.form, k, v), errors)
  }

  /** `selectTimeSlot`: the chosen slot's time becomes the form's time. */
  function SelectTimeSlot(st: State, time: string): (r: State)
    ensures Get(r.form, Time) == time
    ensures forall o :: o != Time ==> Get(r.form, o) == Get(st.form, o)
    ensures r.errors == st.errors
  {
    State(Put(st.form, Time, time), st.errors)
  }

  /** The record the form starts from and is reset to after a booking. */
  const EmptyForm: Form := Form("", "", "", "", "", "", "", "")

  lemma EmptyFormIsEmpty()
    ensures forall k :: Get(EmptyForm, k) == ""
  {
  }

  /** The message `validateForm` writes for field `k`, if any. Each field
      is written by its own check; `!x.trim()` is `Trim(x) == ""` and `!x`
      is `x == ""`. */
  function Message(f: Form, k: Field): Option<string> {
    match k
    case CustomerName => if Trim(f.customerName) == "" then Some("Customer name is required") else None
    case CustomerEmail =>
      if Trim(f.customerEmail) == "" then Some("Email is required")
      else if !LooksLikeEmail(f.customerEmail) then Some("Email is invalid")
      else None
    case CustomerPhone => if Trim(f.customerPhone) == "" then Some("Phone number is required") else None
    case Service => if f.service == "" then Some("Service is required") else None
    case Staff => if f.staff == "" then Some("Staff member is required") else None
    case Date => if f.date == "" then Some("Date is required") else None
    case Time => if f.time == "" then Some("Time is required") else None
    case Notes => None
  }

  /** `validateForm`'s error map: one entry per field whose check fails. */
  function Validate(f: Form): map<Field, string> {
    map k: Field | Message(f, k).Some? :: Message(f, k).value
  }

  /** Why field `k` of `f` cannot be accepted, stated on the field alone:
      the three text fields may not be all white space, the email must
      contain a match of the pattern, and the choices may not be empty. */
  predicate Rejected(f: Form, k: Field) {
    match k
    case CustomerName => IsBlank(f.customerName)
    case CustomerEmail => !LooksLikeEmail(f.customerEmail)
    case CustomerPhone => IsBlank(f.customerPhone)
    case Service => f.service == ""
    case Staff => f.staff == ""
    case Date => f.date == ""
    case Time => f.time == ""
    case Notes => false
  }

  /** What an acceptable booking request looks like. */
  predicate Complete(f: Form) {
    && !IsBlank(f.customerName)
    && LooksLikeEmail(f.customerEmail)
    && !IsBlank(f.customerPhone)
    && f.service != "" && f.staff != "" && f.date != "" && f.time != ""
  }

  /** A field carries an error exactly when it is rejected, and the email's
      message says "required" for a blank address and "invalid" otherwise. */
  lemma ValidateExact(f: Form)
    ensures forall k :: k in Validate(f) <==> Rejected(f, k)
    ensures CustomerEmail in Validate(f) ==>
              Validate(f)[CustomerEmail] == if IsBlank(f.customerEmail) then "Email is required" else "Email is invalid"
  {
    forall k ensures k in Validate(f) <==> Rejected(f, k) {
      MessageWhenRejected(f, k);
    }
    MessageWhenRejected(f, CustomerEmail);
  }

  /** Field by field: a message is written exactly when the field is rejected. */
  lemma MessageWhenRejected(f: Form, k: Field)
    ensures Message(f, k).Some? <==> Rejected(f, k)
    ensures k == CustomerEmail && Message(f, k).Some? ==>
              Message(f, k).value == if IsBlank(f.customerEmail) then "Email is required" else "Email is invalid"
  {
    match k
    case CustomerName => TrimEmptyIffBlank(f.customerName);
    case CustomerEmail =>
      TrimEmptyIffBlank(f.customerEmail);
      if IsBlank(f.customerEmail) {
        BlankIsNotEmail(f.customerEmail);
      }
    case CustomerPhone => TrimEmptyIffBlank(f.customerPhone);
    case _ =>
  }

  /** "Email is required" and "Email is invalid" never both apply: the first
      is for a blank address, the second for a non-blank one that does not
      match. */
  lemma EmailMessagesExclusive(f: Form)
    ensures CustomerEmail in Validate(f) && Validate(f)[CustomerEmail] == "Email is required" <==> IsBlank(f.customerEmail)
    ensures CustomerEmail in Validate(f) && Validate(f)[CustomerEmail] == "Email is invalid"
            <==> !IsBlank(f.customerEmail) && !LooksLikeEmail(f.customerEmail)
  {
    ValidateExact(f);
    if IsBlank(f.customerEmail) {
      BlankIsNotEmail(f.customerEmail);
    }
  }

  /** The error map is empty exactly for a complete form. */
  lemma ValidIffComplete(f: Form)
    ensures Validate(f) == map[] <==> Complete(f)
  {
    var e := Validate(f);
    ValidateExact(f);
    if Complete(f) {
      forall k ensures k !in e {
        assert !Rejected(f, k);
      }
      assert e.Keys == {};
    } else {
      var k :=
        if IsBlank(f.customerName) then CustomerName
        else if !LooksLikeEmail(f.customerEmail) then CustomerEmail
        else if IsBlank(f.customerPhone) then CustomerPhone
        else if f.service == "" then Service
        else if f.staff == "" then Staff
        else if f.date == "" then Date
        else Time;
      assert k in e;
    }
  }

  /** `validateForm`: replace the error map with the new one and answer
      whether it is empty. */
  function ValidateForm(st: State): (r: (State, bool))
    ensures r.1 <==> Complete(st.form)
    ensures r.0.form == st.form
    ensures forall k :: Flagged(r.0.errors, k) <==> Rejected(st.form, k)
    ensures r.0.errors.Keys == Validate(st.form).Keys
  {
    var errors := Shown(Validate(st.form));
    ShownValidation(st.form);
    (State(st.form, errors), |errors.Keys| == 0)
  }

  /** The new error map as the state holds it. */
  function Shown(e: map<Field, string>): (r: Errors)
    ensures r.Keys == e.Keys
    ensures forall k :: k in e ==> r[k] == Some(e[k])
  {
    map k | k in e :: Some(e[k])
  }

  /** The shown errors flag exactly the rejected fields, and there are none
      exactly for a complete form. */
  lemma ShownValidation(f: Form)
    ensures forall k :: Flagged(Shown(Validate(f)), k) <==> Rejected(f, k)
    ensures |Shown(Validate(f)).Keys| == 0 <==> Complete(f)
  {
    var e := Validate(f);
    ValidateExact(f);
    forall k | k in e ensures e[k] != "" {
      MessageWhenRejected(f, k);
    }
    ValidIffComplete(f);
    assert e == map[] <==> e.Keys == {};
  }

  /** `handleSubmit` with its two timers run to completion: a complete form
      is cleared back to `EmptyForm`, an incomplete one is kept with its
      errors shown. */
  function Submit(st: State): (r: State)
    ensures Complete(st.form) ==> r.form == EmptyForm
    ensures !Complete(st.form) ==> r.form == st.form
    ensures forall k :: Flagged(r.errors, k) <==> Rejected(st.form, k)
  {
    var (validated, ok) := ValidateForm(st);
    if ok then State(EmptyForm, validated.errors) else validated
  }

  /** A submitted empty form reports every field except the notes, and the
      email as "required". */
  lemma EmptyFormErrors()
    ensures forall k :: k in Validate(EmptyForm) <==> k != Notes
    ensures Validate(EmptyForm)[CustomerEmail] == "Email is required"
  {
    ValidateExact(EmptyForm);
    forall k ensures Rejected(EmptyForm, k) <==> k != Notes {
    }
  }
}
