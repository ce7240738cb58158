/** The booking records the dashboard keeps, and what the edit modal hands
    to the store when it saves. */
module Records {
  import opened Wrappers

  /** A booking's date and time of day. `At` keeps the calendar day as the
      date input wrote it ("YYYY-MM-DD") together with the hours and minutes
      `setHours` was given; `InvalidDate` is what `setHours(NaN, ...)` leaves
      when the time could not be read. */
  datatype Instant = At(day: string, hours: int, minutes: int) | InvalidDate

  /** One row of the bookings table. */
  datatype Booking = Booking(
    id: int,
    customer: string,
    email: string,
    phone: string,
    service: string,
    date: Instant,
    status: string,
    notes: string)

  /** What the modal passes to `onSave`: the form's fields with the date and
      time combined into one `Instant`. `id` is present only when the form was
      prefilled from an existing booking. */
  datatype Submission = Submission(
    id: Option<int>,
    customer: string,
    email: string,
    phone: string,
    service: string,
    date: Instant,
    time: string,
    status: string,
    notes: string)

  /** The statuses the list offers as filters and the modal offers as choices. */
  const Statuses: seq<string> := ["confirmed", "pending", "cancelled", "completed"]

  /** The filter value that selects every status. */
  const AllStatuses: string := "all"

  /** The row a submission becomes under the given id: every field the
      submission carries except its own id and the separate time text. */
  function FromSubmission(s: Submission, id: int): (b: Booking)
    ensures b.id == id && b.date == s.date && b.status == s.status
    ensures b.customer == s.customer && b.email == s.email && b.phone == s.phone
    ensures b.service == s.service && b.notes == s.notes
  {
    Booking(id, s.customer, s.email, s.phone, s.service, s.date, s.status, s.notes)
  }
}
