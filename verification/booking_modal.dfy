/** The create/edit modal of the bookings page: its form record, the
    prefill from an existing booking, the change handler, the validator and
    the submit step that combines date and time. */
module BookingModal {
  import opened Wrappers
  import opened Text
  import opened EmailPattern
  import opened Clock
  import opened Records

  /** The names of the modal's inputs. */
  datatype ModalField = Customer | Email | Phone | Service | Date | Time | Status | Notes

  /** The modal's form record. `id` is carried along by the prefill spread
      from the booking being edited and is absent for a new booking. */
  datatype ModalForm = ModalForm(
    id: Option<int>,
    customer: string,
    email: string,
    phone: string,
    service: string,
    date: string,
    time: string,
    status: string,
    notes: string)

  /** The modal's error map; clearing writes "". */
  type ModalErrors = map<ModalField, string>

  /** `initialFormState`. */
  const InitialForm: ModalForm := ModalForm(None, "", "", "", "", "", "", "pending", "")

  /** `formData[k]`. */
  function Get(f: ModalForm, k: ModalField): string {
    match k
    case Customer => f.customer
    case Email => f.email
    case Phone => f.phone
    case Service => f.service
    case Date => f.date
    case Time => f.time
    case Status => f.status
    case Notes => f.notes
  }

  /** `{ ...f, [k]: v }`. */
  function Put(f: ModalForm, k: ModalField, v: string): (r: ModalForm)
    ensures Get(r, k) == v
    ensures forall o :: o != k ==> Get(r, o) == Get(f, o)
    ensures r.id == f.id
  {
    match k
    case Customer => f.(customer := v)
    case Email => f.(email := v)
    case Phone => f.(phone := v)
    case Service => f.(service := v)
    case Date => f.(date := v)
    case Time => f.(time := v)
    case Status => f.(status := v)
    case Notes => f.(notes := v)
  }

  /** A new form is pending and every other field is empty. */
  lemma InitialFormDefaults()
    ensures InitialForm.id.None?
    ensures Get(InitialForm, Status) == "pending"
    ensures forall k :: k != Status ==> Get(InitialForm, k) == ""
  {
  }

  /** `handleChange`: store the typed value, and if that field shows an
      error, overwrite it with "". */
  function HandleChange(f: ModalForm, e: ModalErrors, k: ModalField, v: string): (r: (ModalForm, ModalErrors))
    ensures Get(r.0, k) == v
    ensures forall o :: o != k ==> Get(r.0, o) == Get(f, o)
    ensures r.0.id == f.id
    ensures k in e ==> k in r.1 && r.1[k] == ""
    ensures r.1.Keys == e.Keys
    ensures forall o :: o != k && o in e ==> r.1[o] == e[o]
  {
    var errors := if k in e && e[k] != "" then e[k := ""] else e;
    (Put(f, k, v), errors)
  }

  /** The message `validateForm` leaves on field `k`, if any. The email
      field is written by two checks in a row, the second unconditional, so
      its final value is decided by the pattern. */
  function Message(f: ModalForm, k: ModalField): Option<string> {
    match k
    case Customer => if Trim(f.customer) == "" then Some("Customer name is required") else None
    case Email =>
      var required := if Trim(f.email) == "" then Some("Email is required") else None;
      if !LooksLikeEmail(f.email) then Some("Email is invalid") else required
    case Phone => if Trim(f.phone) == "" then Some("Phone is required") else None
    case Service => if Trim(f.service) == "" then Some("Service is required") else None
    case Date => if f.date == "" then Some("Date is required") else None
    case Time => if f.time == "" then Some("Time is required") else None
    case Status => if f.status == "" then Some("Status is required") else None
    case Notes => None
  }

  /** `validateForm`'s error map. */
  function Validate(f: ModalForm): ModalErrors {
    map k: ModalField | Message(f, k).Some? :: Message(f, k).value
  }

  /** Why field `k` cannot be accepted, stated on the field alone. */
  predicate Rejected(f: ModalForm, k: ModalField) {
    match k
    case Customer => IsBlank(f.customer)
    case Email => !LooksLikeEmail(f.email)
    case Phone => IsBlank(f.phone)
    case Service => IsBlank(f.service)
    case Date => f.date == ""
    case Time => f.time == ""
    case Status => f.status == ""
    case Notes => false
  }

  /** What an acceptable modal form looks like. */
  predicate Complete(f: ModalForm) {
    && !IsBlank(f.customer)
    && LooksLikeEmail(f.email)
    && !IsBlank(f.phone)
    && !IsBlank(f.service)
    && f.date != "" && f.time != "" && f.status != ""
  }

  /** Field by field: a message is left exactly when the field is rejected,
      and the email's message is always "Email is invalid". */
  lemma MessageWhenRejected(f: ModalForm, k: ModalField)
    ensures Message(f, k).Some? <==> Rejected(f, k)
    ensures Message(f, k).Some? ==> Message(f, k).value != ""
    ensures k == Email && Message(f, k).Some? ==> Message(f, k).value == "Email is invalid"
  {
    match k
    case Customer => TrimEmptyIffBlank(f.customer);
    case Email =>
      if Trim(f.email) == "" {
        TrimEmptyIffBlank(f.email);
        BlankIsNotEmail(f.email);
      }
    case Phone => TrimEmptyIffBlank(f.phone);
    case Service => TrimEmptyIffBlank(f.service);
    case _ =>
  }

  /** A field carries an error exactly when it is rejected. */
  lemma ValidateExact(f: ModalForm)
    ensures forall k :: k in Validate(f) <==> Rejected(f, k)
    ensures forall k :: k in Validate(f) ==> Validate(f)[k] != ""
  {
    forall k ensures k in Validate(f) <==> Rejected(f, k) {
      MessageWhenRejected(f, k);
    }
    forall k | k in Validate(f) ensures Validate(f)[k] != "" {
      MessageWhenRejected(f, k);
    }
  }

  /** The unconditional pattern check overwrites "Email is required": a
      blank address is reported as invalid, and the email field never shows
      "Email is required". */
  lemma BlankEmailReportedInvalid(f: ModalForm)
    ensures IsBlank(f.email) ==> Email in Validate(f) && Validate(f)[Email] == "Email is invalid"
    ensures Email in Validate(f) ==> Validate(f)[Email] == "Email is invalid"
  {
    MessageWhenRejected(f, Email);
    if IsBlank(f.email) {
      BlankIsNotEmail(f.email);
    }
  }

  /** The error map is empty exactly for a complete form. */
  lemma ValidIffComplete(f: ModalForm)
    ensures Validate(f) == map[] <==> Complete(f)
    ensures |Validate(f).Keys| == 0 <==> Complete(f)
  {
    var e := Validate(f);
    ValidateExact(f);
    if Complete(f) {
      forall k ensures k !in e {
        assert !Rejected(f, k);
      }
      assert e.Keys == {};
    } else {
      var k :=
        if IsBlank(f.customer) then Customer
        else if !LooksLikeEmail(f.email) then Email
        else if IsBlank(f.phone) then Phone
        else if IsBlank(f.service) then Service
        else if f.date == "" then Date
        else if f.time == "" then Time
        else Status;
      assert k in e;
    }
  }

  /** `validateForm`: the new error map, and whether it is empty. */
  function ValidateForm(f: ModalForm): (r: (ModalErrors, bool))
    ensures r.1 <==> Complete(f)
    ensures forall k :: k in r.0 <==> Rejected(f, k)
  {
    var e := Validate(f);
    ValidIffComplete(f);
    ValidateExact(f);
    (e, |e.Keys| == 0)
  }

  /** The date `handleSubmit` builds: `new Date(date)` moved to the hours and
      minutes `time.split(':')` yields. When either cannot be read,
      `setHours` receives `NaN` and the date becomes invalid. */
  function Combine(date: string, time: string): (r: Instant)
    ensures r.At? <==> ParseTime(time).Some?
    ensures r.At? ==> r.day == date && (r.hours, r.minutes) == ParseTime(time).value
  {
    match ParseTime(time)
    case Some((h, m)) => At(date, h, m)
    case None => InvalidDate
  }

  /** `handleSubmit`: validate, and when the form is acceptable hand over the
      form with its date replaced by the combined date and time. */
  function Submit(f: ModalForm): (r: (ModalErrors, Option<Submission>))
    ensures r.1.Some? <==> Complete(f)
    ensures forall k :: k in r.0 <==> Rejected(f, k)
    ensures r.1.Some? ==> r.1.value == Submission(f.id, f.customer, f.email, f.phone, f.service,
                                                    Combine(f.date, f.time), f.time, f.status, f.notes)
  {
    var (errors, ok) := ValidateForm(f);
    if ok then
      (errors, Some(Submission(f.id, f.customer, f.email, f.phone, f.service,
                               Combine(f.date, f.time), f.time, f.status, f.notes)))
    else (errors, None)
  }

  /** A well-formed "HH:MM" time is read as the hours and minutes it shows. */
  lemma CombineClockTime(date: string, time: string)
    requires WellFormedTime(time)
    ensures Combine(date, time) == At(date, HoursOf(time), MinutesOf(time))
  {
    ParseClock(time);
  }

  /** Whether an instant can be shown in the modal: a valid date whose hours
      and minutes are those of a clock reading. */
  predicate ClockInstant(d: Instant) {
    d.At? && 0 <= d.hours <= 23 && 0 <= d.minutes <= 59
  }

  /** The `useEffect` prefill: the booking's fields, its day as the date and
      its "HH:MM" as the time. A booking whose date cannot be shown is not
      prefilled. */
  function Prefill(b: Booking): (r: Option<ModalForm>)
    ensures r.Some? <==> ClockInstant(b.date)
    ensures r.Some? ==> r.value.id == Some(b.id) && r.value.date == b.date.day
    ensures r.Some? ==> r.value.customer == b.customer && r.value.email == b.email && r.value.phone == b.phone
    ensures r.Some? ==> r.value.service == b.service && r.value.status == b.status && r.value.notes == b.notes
    ensures r.Some? ==> WellFormedTime(r.value.time)
    ensures r.Some? ==> HoursOf(r.value.time) == b.date.hours && MinutesOf(r.value.time) == b.date.minutes
  {
    if ClockInstant(b.date) then
      FormatShows(b.date.hours, b.date.minutes);
      Some(ModalForm(Some(b.id), b.customer, b.email, b.phone, b.service,
                     b.date.day, FormatTime(b.date.hours, b.date.minutes), b.status, b.notes))
    else None
  }

  /** Opening a booking in the modal and combining its date and time again
      gives back the booking's date. */
  lemma PrefillThenCombine(b: Booking)
    requires ClockInstant(b.date)
    ensures Combine(Prefill(b).value.date, Prefill(b).value.time) == b.date
  {
    FormatThenParse(b.date.hours, b.date.minutes);
  }

  /** Saving a well-formed time and opening the saved booking again shows the
      same date text and the same "HH:MM". */
  lemma CombineThenPrefill(b: Booking, date: string, time: string)
    requires WellFormedTime(time) && b.date == Combine(date, time)
    ensures Prefill(b).Some?
    ensures Prefill(b).value.date == date && Prefill(b).value.time == time
  {
    ParseThenFormat(time);
    ParseClock(time);
  }

  /** Prefilling and submitting unchanged gives back the booking: the
      submission carries its id, fields and date. */
  lemma PrefillSubmitRoundTrip(b: Booking)
    requires ClockInstant(b.date)
    requires Complete(Prefill(b).value)
    ensures Submit(Prefill(b).value).1.Some?
    ensures FromSubmission(Submit(Prefill(b).value).1.value, b.id) == b
    ensures Submit(Prefill(b).value).1.value.id == Some(b.id)
  {
    PrefillThenCombine(b);
  }
}
