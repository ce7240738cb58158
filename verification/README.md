# Booking dashboard core in Dafny

This project models the non-visual logic of a small React booking dashboard and proves properties about it. Three screens hold that logic:

- **The bookings page.** Its list of booking rows starts from seven seed rows. New rows are created under `max(ids, 0) + 1`. A row is replaced when its id matches, and deleted by id. The table shows the rows that pass an exact status filter (`"all"` lets every row through) and a case-insensitive substring search over customer, email and service.
- **The new-booking form.** Its record holds eight text fields. Its error map is cleared field by field as the user types. It has a time-slot grid of every half hour from 09:00 through 17:30, whose availability flags come from a random draw. Its validator covers the required fields and the email pattern `\S+@\S+\.\S+`. It has fixed service and staff catalogs, lookups into them by id, and a staff list narrowed to the chosen service.
- **The create/edit modal.** Its form starts as `pending`. It can be prefilled from an existing booking, which shows the time as "HH:MM". Its validator differs from the form's. On submit it splits "HH:MM" back into hours and minutes and combines them with the date.

Everything is pure. Each React state update becomes a function from the old state to the new one. The random availability draw is a parameter `draw: nat -> bool`. JavaScript's string primitives are written out in the `Text` module; those used are `trim`, `toLowerCase`, `includes`, `split`, `padStart`, `toString`, and `parseInt` both with a radix of 10 and without a radix, which reads a `0x` prefix as base 16.

Modules:

| module | file | contents |
|---|---|---|
| `Wrappers` | wrappers.dfy | `Option` |
| `Seqs` | seqs.dfy | `filter` and `find`, order-preserving subsequences |
| `Text` | text.dfy | white space, trim, lower-casing, substring, split/join, decimal text, `parseInt` |
| `EmailPattern` | email_pattern.dfy | the unanchored `\S+@\S+\.\S+` test, as a predicate and as a scanning method |
| `Clock` | clock.dfy | "HH:MM" formatting and parsing |
| `Records` | records.dfy | booking rows, the modal's submission, the status set |
| `Catalog` | catalog.dfy | services, staff, lookups by id, staff by specialty |
| `TimeSlots` | time_slots.dfy | the half-hour slot grid |
| `BookingForm` | booking_form.dfy | the new-booking form |
| `BookingModal` | booking_modal.dfy | the create/edit modal |
| `Bookings` | bookings.dfy | the list store and its query |

Behaviour of the code that the model keeps:

- The slot loop runs `hour <= 17`, so the grid has 18 slots ending at 17:30.
- Ids are `max + 1` of the ids present, not drawn from a counter, so an id freed by a delete can be handed out again (`Bookings.DeleteMaxThenNextId`, `Bookings.SeedIdReuse`).
- There is no status workflow: an update may set any status (`Bookings.UpdateSetsAnyStatus`).
- Nothing checks whether two bookings take the same slot.
- Slot availability is random rather than derived from existing bookings.
- Updating or deleting an id that is not present is a silent no-op, not an error (`Bookings.UpdateAbsentIsNoOp`, `Bookings.Delete`).
- The form's validator requires service and staff to be non-empty, and the modal's requires a non-blank service. Neither checks them against the catalogs.

## Model

| member | source | states |
|---|---|---|
| Seqs.Filter | src/pages/Bookings.jsx:166 | `filter` keeps an order-preserving subsequence whose elements all pass; each passing value keeps its multiplicity and each failing one is dropped; when everything passes, the sequence is unchanged |
| Seqs.FilterAppend | src/pages/Bookings.jsx:166 | filtering a concatenation is the concatenation of the filtered parts |
| Seqs.FilterMembership | src/components/MainFeature.jsx:164 | a value is in the filtered sequence exactly when it is in the input and passes |
| Seqs.SubsequenceTrans | src/pages/Bookings.jsx:114-129 | applying two filters one after the other still yields an order-preserving subsequence |
| Seqs.SubsequenceMembers | src/pages/Bookings.jsx:166 | every element of a subsequence occurs in the original |
| Seqs.Find | src/components/MainFeature.jsx:154-160 | `find` returns nothing exactly when no element passes, and otherwise returns the first element that passes |
| Text.TrimStart | src/components/MainFeature.jsx:91 | the leading part `trim` strips is all white space, and what remains does not start with white space |
| Text.TrimEnd | src/components/MainFeature.jsx:91 | the trailing part `trim` strips is all white space, and what remains does not end with white space |
| Text.TrimEmptyIffBlank | src/components/MainFeature.jsx:91-102 | `!s.trim()` holds exactly when every character of `s` is white space |
| Text.ToLowerIdempotent | src/pages/Bookings.jsx:123 | lower-casing an already lowered term changes nothing |
| Text.Split | src/components/bookings/BookingModal.jsx:72 | `split(':')` yields at least one part, no part contains the separator, and joining the parts with it gives back the input |
| Text.SplitJoin | src/components/bookings/BookingModal.jsx:72 | splitting the join of separator-free parts gives back those parts |
| Text.DigitPrefix | src/components/bookings/BookingModal.jsx:74 | the digits `parseInt` reads are the longest all-digit prefix |
| Text.NatToDecimal | src/components/MainFeature.jsx:50 | `toString` of a number is non-empty decimal digits with no leading zero, and denotes the number |
| Text.PadStart2 | src/components/MainFeature.jsx:50 | `padStart(2, '0')` pads with zeros on the left up to length 2 and keeps the text as its suffix |
| Text.ParseDigits | src/components/bookings/BookingModal.jsx:74 | `parseInt` of a non-empty digit string is the number those digits denote |
| Text.ParseDecimal | src/components/bookings/BookingModal.jsx:74 | `parseInt(_, 10)` of a natural number's decimal text gives back the number |
| Text.ParseIntToDecimal | src/components/bookings/BookingModal.jsx:74 | `parseInt(_, 10)` of any integer's decimal text gives back the integer, negatives included |
| Text.ParseIntAuto | src/components/MainFeature.jsx:155 | without a radix, `parseInt` reads as `parseInt(_, 10)` unless the text after white space and sign starts with `0x` or `0X` |
| Text.HexDigitPrefix | src/components/MainFeature.jsx:164 | the digits a base-16 reading takes are the longest prefix of base-16 digits |
| Text.DecimalStopsAtX | src/components/bookings/BookingModal.jsx:74 | with a radix of 10, "0x" followed by a digit reads as 0 |
| Text.AutoReadsHex | src/components/MainFeature.jsx:164 | `parseInt` without a radix reads "0x" followed by a digit as that digit in base 16 |
| Text.HexPrefixExample | src/components/MainFeature.jsx:164 | "0x2" reads as 0 with a radix of 10 and as 2 without one |
| Text.UnsignedDecimal | src/components/MainFeature.jsx:155 | after the sign, an integer's decimal text is the decimal text of its magnitude |
| Text.ParseAutoToDecimal | src/components/MainFeature.jsx:155 | `parseInt` without a radix of any integer's decimal text gives back the integer, because decimal text never starts with `0x` |
| EmailPattern.Test | src/components/MainFeature.jsx:97 | the scanning test answers true exactly when some substring matches `\S+@\S+\.\S+` |
| EmailPattern.BlankIsNotEmail | src/components/MainFeature.jsx:95-97 | a blank string never matches the email pattern |
| EmailPattern.Examples | src/components/bookings/BookingModal.jsx:56 | the pattern accepts "a@x.com" and "jane@example.com" and rejects "not-an-email" and "a@.com" |
| Clock.TwoDigitPad | src/components/MainFeature.jsx:50 | zero-padding the value of two digits gives back those two digits |
| Clock.SplitClock | src/components/bookings/BookingModal.jsx:72 | a well-formed "HH:MM" splits at ':' into exactly its two digit pairs |
| Clock.ParseClock | src/components/bookings/BookingModal.jsx:72-74 | splitting a well-formed "HH:MM" and parsing both halves gives the hours and minutes it shows, within 0..23 and 0..59 |
| Clock.FormatClock | src/components/bookings/BookingModal.jsx:29 | formatting a reading's two values zero-padded rebuilds the reading |
| Clock.ParseThenFormat | src/components/bookings/BookingModal.jsx:29-74 | parsing a well-formed "HH:MM" and formatting it back zero-padded is the identity |
| Clock.FormatIsWellFormed | src/components/MainFeature.jsx:50 | hours 0..23 and minutes 0..59 format to a well-formed five-character "HH:MM" |
| Clock.Pad2Value | src/components/MainFeature.jsx:50 | a zero-padded number below 100 is two digits denoting that number |
| Clock.FormatShows | src/components/MainFeature.jsx:50 | a formatted clock reading shows the hours and minutes it was built from |
| Clock.FormatThenParse | src/components/bookings/BookingModal.jsx:72-74 | formatting a clock reading and then splitting and parsing it gives back the hours and minutes |
| Catalog.Reparse | src/components/MainFeature.jsx:155 | the second `parseInt` inside the lookups gives back the integer it was given, and `NaN` stays `NaN` |
| Catalog.ServiceById | src/components/MainFeature.jsx:154-156 | a service is found exactly when some catalog service has the id, and what is found is a catalog service with that id |
| Catalog.StaffById | src/components/MainFeature.jsx:158-160 | a staff member is found exactly when some catalog member has the id, and what is found is a catalog member with that id |
| Catalog.CatalogIdsUnique | src/components/MainFeature.jsx:24-38 | no two services share an id, and no two staff members do |
| Catalog.ServiceLookupFinds | src/components/MainFeature.jsx:441 | looking up a service by its id, whether given as a number or as option text read by `parseInt` without a radix, finds that very service |
| Catalog.StaffLookupFinds | src/components/MainFeature.jsx:448-450 | looking up a staff member by their id, whether given as a number or as option text read by `parseInt` without a radix, finds that very member |
| Catalog.FilteredStaff | src/components/MainFeature.jsx:163-165 | the staff shown keep catalog order, and with no service chosen everybody is shown |
| Catalog.FilteredStaffExact | src/components/MainFeature.jsx:164 | with a service chosen, a member is shown exactly when their specialties include the service id that `parseInt` without a radix reads, with their catalog multiplicity |
| Catalog.HexServiceTextListsStaff | src/components/MainFeature.jsx:164 | a service field holding "0x2" is read in base 16, so the staff member offering service 2 is listed |
| Catalog.UnreadableServiceHasNoStaff | src/components/MainFeature.jsx:164 | a chosen service that `parseInt` cannot read leaves no staff, because `includes(NaN)` is false |
| TimeSlots.GridLength | src/components/MainFeature.jsx:48-58 | each hour of the loop contributes two slots |
| TimeSlots.GridAt | src/components/MainFeature.jsx:48-58 | slot `2q + i` is minute mark `i` of hour `9 + q`, with the availability of draw `2q + i` |
| TimeSlots.GridEnds | src/components/MainFeature.jsx:50 | the first and last formatted times are "09:00" and "17:30" |
| TimeSlots.ClockFacts | src/components/MainFeature.jsx:48-50 | mark `i` of hour `9 + q` is a well-formed time `2q + i` half hours after 09:00 |
| TimeSlots.GridSlot | src/components/MainFeature.jsx:44-58 | the k-th slot of the finished grid is well formed, k half hours after 09:00, and available as draw k says |
| TimeSlots.GridEndpoints | src/components/MainFeature.jsx:44-58 | the finished grid has 18 slots, from "09:00" to "17:30" |
| TimeSlots.GridFacts | src/components/MainFeature.jsx:44-58 | every slot of the finished grid is well formed, lies 30k minutes after 09:00, and carries draw k |
| TimeSlots.StrictlyIncreasing | src/components/MainFeature.jsx:48-49 | slots 30 minutes apart are in strictly increasing time order |
| TimeSlots.RowStep | src/components/MainFeature.jsx:49-56 | one turn of the inner loop appends the slot for the next minute mark |
| TimeSlots.AppendHour | src/components/MainFeature.jsx:49-57 | the inner loop appends one hour's row, numbering its draws after the slots already built |
| TimeSlots.BuildGrid | src/components/MainFeature.jsx:44-58 | the outer loop builds the grid of hours 9 through 17 |
| TimeSlots.GenerateSlots | src/components/MainFeature.jsx:44-58 | the slot list has 18 entries from "09:00" to "17:30", all zero-padded "HH:MM", 30 minutes apart, strictly increasing, with slot k available as draw k says |
| BookingForm.Put | src/components/MainFeature.jsx:66-69 | writing a field sets that field and leaves the others alone |
| BookingForm.PutLaws | src/components/MainFeature.jsx:66-69 | writing back a field's own value changes nothing, and a second write to a field replaces the first |
| BookingForm.HandleInputChange | src/components/MainFeature.jsx:64-78 | only the named field changes; a truthy error on it becomes `null`; every other error and every error key stays |
| BookingForm.SelectTimeSlot | src/components/MainFeature.jsx:80-86 | choosing a slot sets the time, leaves the other fields alone, and leaves the errors alone |
| BookingForm.EmptyFormIsEmpty | src/components/MainFeature.jsx:6-15 | the starting record, which is also the reset record, has every field empty |
| BookingForm.MessageWhenRejected | src/components/MainFeature.jsx:91-119 | each field check writes a message exactly when that field is rejected; the email message is "Email is required" when blank and "Email is invalid" otherwise |
| BookingForm.ValidateExact | src/components/MainFeature.jsx:88-121 | the error map's keys are exactly the rejected fields, and the email message depends on blankness as above |
| BookingForm.EmailMessagesExclusive | src/components/MainFeature.jsx:95-99 | "Email is required" appears exactly for a blank address, and "Email is invalid" exactly for a non-blank address that does not match |
| BookingForm.ValidIffComplete | src/components/MainFeature.jsx:88-122 | the error map is empty exactly when name, email and phone are non-blank, the email matches, and service, staff, date and time are non-empty |
| BookingForm.ValidateForm | src/components/MainFeature.jsx:88-123 | the result is true exactly for a complete form; the stored errors flag exactly the rejected fields; the form is unchanged |
| BookingForm.ShownValidation | src/components/MainFeature.jsx:121-122 | the stored errors flag exactly the rejected fields, and there are none exactly for a complete form |
| BookingForm.Submit | src/components/MainFeature.jsx:125-152 | a complete form is reset to the empty record, an incomplete one is kept, and in both cases the errors flag exactly the rejected fields |
| BookingForm.EmptyFormErrors | src/components/MainFeature.jsx:88-119 | submitting the empty form reports every field except the notes, with the email reported as "Email is required" |
| BookingModal.Put | src/components/bookings/BookingModal.jsx:37-40 | writing a field sets that field, leaves the others alone, and keeps the id |
| BookingModal.InitialFormDefaults | src/components/bookings/BookingModal.jsx:7-16 | a new form has no id, status "pending", and every other field empty |
| BookingModal.HandleChange | src/components/bookings/BookingModal.jsx:35-49 | only the named field changes; an existing error on it becomes ""; every other error and every error key stays |
| BookingModal.MessageWhenRejected | src/components/bookings/BookingModal.jsx:54-61 | each field ends with a message exactly when that field is rejected; messages are non-empty; the email's final message is always "Email is invalid" |
| BookingModal.ValidateExact | src/components/bookings/BookingModal.jsx:52-63 | the error map's keys are exactly the rejected fields, and every message is non-empty |
| BookingModal.BlankEmailReportedInvalid | src/components/bookings/BookingModal.jsx:55-56 | a blank email is reported as "Email is invalid", never as "Email is required" |
| BookingModal.ValidIffComplete | src/components/bookings/BookingModal.jsx:54-64 | the error map is empty exactly when customer, phone and service are non-blank, the email matches, and date, time and status are non-empty |
| BookingModal.ValidateForm | src/components/bookings/BookingModal.jsx:52-65 | the result is true exactly for a complete form, and the errors are exactly the rejected fields |
| BookingModal.Submit | src/components/bookings/BookingModal.jsx:68-83 | a submission is produced exactly for a complete form, and it is the form with only the date replaced by the combined date and time |
| BookingModal.CombineClockTime | src/components/bookings/BookingModal.jsx:72-74 | a well-formed "HH:MM" combines to the hours and minutes it shows |
| BookingModal.Prefill | src/components/bookings/BookingModal.jsx:22-32 | a prefilled form carries the booking's id, fields and day, with a well-formed "HH:MM" time showing the booking's hours and minutes |
| BookingModal.PrefillThenCombine | src/components/bookings/BookingModal.jsx:29-74 | prefilling a booking and combining its date and time again gives back the booking's date |
| BookingModal.CombineThenPrefill | src/components/bookings/BookingModal.jsx:29-74 | saving a well-formed time and prefilling again shows the same date text and the same "HH:MM" |
| BookingModal.PrefillSubmitRoundTrip | src/components/bookings/BookingModal.jsx:22-81 | prefilling a booking and submitting it unchanged gives back the booking, under its own id |
| Bookings.SeedWellFormed | src/pages/Bookings.jsx:12-83 | the seed rows are numbered 1 to 7 in order and each has one of the four statuses |
| Bookings.MaxId | src/pages/Bookings.jsx:150 | `Math.max(...ids, 0)` is at least 0, at least every id, and either 0 or an id present |
| Bookings.NextId | src/pages/Bookings.jsx:150 | the new id exceeds every existing id, and is 1 for an empty list |
| Bookings.Create | src/pages/Bookings.jsx:149-154 | create appends exactly one row at the end, keeps the old rows in order, and gives the new row the next id |
| Bookings.CreateKeepsUnique | src/pages/Bookings.jsx:150-152 | unique ids stay unique after a create |
| Bookings.Update | src/pages/Bookings.jsx:157-162 | update keeps the length and every row's id; rows with a matching id take the submission and all other rows are untouched |
| Bookings.UpdateAbsentIsNoOp | src/pages/Bookings.jsx:158-160 | an update whose id matches no row changes nothing |
| Bookings.UpdateKeepsUnique | src/pages/Bookings.jsx:158-160 | unique ids stay unique after an update |
| Bookings.UpdateSetsAnyStatus | src/pages/Bookings.jsx:158-160 | an update may set any status text on the matching row |
| Bookings.Delete | src/pages/Bookings.jsx:165-168 | delete keeps an order-preserving subsequence with no row of that id, keeps every other row with its multiplicity, and changes nothing when the id is absent |
| Bookings.DeleteIds | src/pages/Bookings.jsx:166 | the ids left after a delete are the old ids minus the deleted one |
| Bookings.DeleteRemovesOne | src/pages/Bookings.jsx:166 | with unique ids, deleting a present id removes exactly one row |
| Bookings.SubsequenceKeepsUnique | src/pages/Bookings.jsx:166 | any order-preserving subsequence of uniquely numbered rows is uniquely numbered |
| Bookings.DeleteKeepsUnique | src/pages/Bookings.jsx:166 | unique ids stay unique after a delete |
| Bookings.DeleteBelowMax | src/pages/Bookings.jsx:150-166 | deleting the row with the largest id m leaves only ids below m |
| Bookings.ReuseWhenPredecessorKept | src/pages/Bookings.jsx:150-166 | when m is 1 or m - 1 is still in use, deleting the largest id m makes the next create hand out m again |
| Bookings.NoReuseAfterGap | src/pages/Bookings.jsx:150-166 | when m is above 1 and m - 1 is not in use, deleting the largest id m makes the next create hand out a smaller id |
| Bookings.DeleteMaxThenNextId | src/pages/Bookings.jsx:150-166 | after deleting the row with the largest id m, the next id is m again exactly when m is 1 or m - 1 is still in use |
| Bookings.CreateDeleteCreate | src/pages/Bookings.jsx:149-168 | deleting a just-created row restores the list, and the next create reuses its id |
| Bookings.NumberedIdReuse | src/pages/Bookings.jsx:150-166 | for rows numbered 1..n, deleting row n makes the next create reuse id n |
| Bookings.SeedIdReuse | src/pages/Bookings.jsx:12-166 | on the seed rows, deleting booking 7 makes the next create reuse id 7 |
| Bookings.StatusStep | src/pages/Bookings.jsx:117-119 | the status step keeps, in order and with their multiplicity, exactly the rows whose status equals the filter, and keeps every row for "all" |
| Bookings.SearchStep | src/pages/Bookings.jsx:122-129 | the search step keeps, in order and with their multiplicity, exactly the rows whose lowered customer, email or service contains the lowered term, and keeps every row for an empty term |
| Bookings.Query | src/pages/Bookings.jsx:113-132 | the rows shown are an order-preserving subsequence, and are all the rows for status "all" with an empty term |
| Bookings.QueryExact | src/pages/Bookings.jsx:113-132 | a row is shown exactly when it is in the list, passes the status filter and matches the term, with its multiplicity |
| Bookings.QueryHasStatus | src/pages/Bookings.jsx:117-119 | with a status chosen, every row shown has that status |
| Bookings.QueryIgnoresTermCase | src/pages/Bookings.jsx:123 | lower-casing the term first does not change the rows shown |

## Left out

- Rendering: JSX, animation, icons, CSS classes, and the `statusColors` and `statusIcons` lookups (src/pages/Bookings.jsx:86-99). They are presentation only; the status set itself is `Records.Statuses`.
- The random availability of a slot (src/components/MainFeature.jsx:51) is a parameter `draw`: the value is nondeterministic. The threshold `> 0.3` is not modelled.
- Calendar dates. A date is the "YYYY-MM-DD" text of the date input together with the hours and minutes. Timezones are not modelled: `toISOString` works in UTC and `toTimeString` in local time, and date-fns `format` is used for display. Nor is `new Date` of an unreadable string, or the roll-over `setHours` applies to hours above 23 or minutes above 59.
- BookingModal.PrefillThenCombine: holds only when the runtime's time zone is UTC. The prefill takes the UTC day (src/components/bookings/BookingModal.jsx:28) and the local time (:29). The submit starts from `new Date("YYYY-MM-DD")`, which is UTC midnight, and then sets local hours (:73-74). In a zone west of UTC, seed booking 1 (May 12, 10:30) is saved back as May 11, 10:30. The model's `Instant` has no time zone.
- BookingModal.CombineThenPrefill: holds only in a UTC runtime, for the same reason.
- BookingModal.PrefillSubmitRoundTrip: holds only in a UTC runtime, for the same reason. Elsewhere an unchanged edit and save can move the booking by a day.
- BookingModal.Prefill: returns nothing for a booking whose date is invalid or whose hours and minutes are not a clock reading. In the application `toISOString` throws for an invalid date, and out-of-range values are normalised by `Date`. The edit page only opens rows this model can prefill.
- BookingModal.Combine: a time that parses but is out of range (such as "25:99") is kept as given; the application would roll it over into the next day or hour.
- Timers and browser I/O. `BookingForm.Submit` runs the two `setTimeout` steps to completion in one go, and the submitting and success flags are not modelled. The export `alert` is left out.
- React plumbing: `useState` and `useEffect` become values passed in and returned. The bookings page's stored filtered list is the value of `Bookings.Query`, and the slot grid is regenerated only when the date changes to a non-empty value, so clearing the date keeps the old grid.
- Opening, closing and the current-booking selection of the modals, and the modal's reset between uses. These only route values into the modelled handlers.
- Text.ToLower: lowers ASCII capitals only, whereas JavaScript's `toLowerCase` applies the full Unicode case mapping.
- Records.FromSubmission: drops the separate `time` text that a row saved from the modal also carries, because nothing reads it afterwards.
- Bookings.MaxId: does not model the engine's limit on the number of arguments `Math.max(...ids)` may receive.
- Catalog.Reparse: does not model numbers whose magnitude reaches 1e21, for which `toString` switches to exponent notation and the second `parseInt` reads only the leading digits.
- Text.ParseInt: reads the digits into an exact integer. JavaScript rounds the value to the nearest double, which differs above 2^53 - 1. The same holds for `Text.ParseIntAuto`.
- BookingForm.MessageWhenRejected: states the exact message text for the email field only. The other fields' messages are fixed strings written out in `BookingForm.Message`.
- Concurrency: the code is single-threaded UI state.
- src/App.jsx, src/components/bookings/DeleteConfirmationModal.jsx, src/pages/NotFound.jsx and src/pages/Home.jsx hold routing, theme and confirmation UI only and are not part of this model.
