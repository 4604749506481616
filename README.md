# Seat reservations of the theatre booking app, modelled in Dafny

The app sells numbered seats for theatre events. A customer picks seats on a
seat map, and the app records a *pending* booking (status 1). A card payment
turns it *paid* (status 2). Staff can record a cash sale directly as *validated*
(status 3). A scheduler releases pending bookings (status 0) whose
`created_at` text is `<=` the text of "now minus five minutes". Both are
day-first texts, so this is not the same as "older than five minutes". Seats are stored per booking as one comma-joined text. A seat is
*held* for an event while some booking of that event in status 1, 2 or 3 lists
it.

The model has five files:

- `records.dfy` (module `Records`): the two table rows and the status codes.
  It also defines `TextLe`, SQLite's BINARY order on TEXT. `created_at` is
  written as `"%d-%m-%Y %H:%M:%S"` and compared as text. The sweep's `<=` and
  the listing's `ORDER BY created_at DESC` therefore compare day-first text.
  They are not chronological, and `StoreProperties.SweepComparesText` shows an
  instance.
- `seat_list.dfy` (module `SeatList`): Python's `s.split(',')` and
  `','.join(xs)`, the SQL per-booking seat count, and their round trips.
- `database.dfy`:
  - module `Database`: the class `Store`, holding the bookings and events
    tables as maps keyed by id plus the AUTOINCREMENT counters. Every
    function of `database.py` in the core is a method or function on it. A
    mutator's contract states the whole new state.
  - module `StoreProperties`: lemmas about the sweep, deletion, the event
    cascade, the seat counts and the listings.
- `booking_service.dfy` (module `BookingService`): `allowed_file`, the email
  pattern, both form validators, `get_booked_seats` and `check_seats_available`.
  The last two are loops proved equal to the held-seat set `HeldSeats`.
- `app.dfy` (module `App`): the request handlers as methods over a `Store`.
  The payment provider, Flask, e-mail and file saving are replaced by
  parameters:
  - the booking id recovered from the payment session;
  - the uploaded file's name;
  - `secure_filename`.

  It also has two invariants on the bookings table:
  - `StatusesInDomain`: every status lies in 0..3;
  - `NoDoubleBooking`: no seat of an event is held by two bookings.

  Every handler and the sweep preserve both. The booking handlers preserve
  `NoDoubleBooking` only when no submitted seat id contains a comma. The form
  validators compare each submitted id as a whole, but the stored list is read
  back split at commas. `App.CommaSeatIdDoubleBooks` shows that a single
  submitted id `"A1,A2"` passes validation while `"A2"` is already held. The
  booking it creates holds `"A2"` a second time.

The handlers run one at a time in this model. So the availability re-check in
`select_seats` and `admin_book_seats` re-reads exactly the store the validation
read, and it can never fail: `SeatsTaken` is proved unreachable. The re-check
matters only in the concurrent app.

## Model

| member | source | states |
|---|---|---|
| Records.TextLe | database.py:21 | a text is `<=` every text it is a prefix of, and a non-empty text is `<=` only a non-empty text whose first character is not smaller |
| Records.DropCommonFirst | database.py:21 | removing a shared first character keeps where, and in whose favour, two texts first differ |
| Records.DropCommonFirstPrefix | database.py:21 | removing a shared first character keeps the prefix relation |
| Records.TextLeLexicographic | database.py:21 | `<=` holds iff the first text is a prefix of the second, or has the smaller character where they first differ, as BINARY collation compares |
| Records.TextLeReflexive | database.py:107-110 | every timestamp text is `<=` itself |
| Records.TextLeTotal | database.py:107-110 | any two texts are ordered one way or the other, so the descending listing order is defined |
| Records.TextLeTransitive | database.py:107-110 | the TEXT order is transitive |
| Records.TextLeAntisymmetric | database.py:18-22 | two texts each `<=` the other are equal |
| SeatList.Split | booking_service.py:17 | `split(',')` yields at least one piece, and no piece contains a comma |
| SeatList.SplitCountsCommas | booking_service.py:17 | `split(',')` yields one piece more than there are commas |
| SeatList.RemoveCommas | database.py:146-149 | `REPLACE(seats, ',', '')` keeps every character except the commas |
| SeatList.Join | app.py:203 | `','.join` of no pieces is "", and otherwise the text is at least as long as its first piece plus one separator per further piece |
| SeatList.JoinCountsCommas | app.py:203 | joining comma-free pieces puts exactly one comma between neighbours, so the text has one comma fewer than pieces |
| SeatList.SeatCount | database.py:147 | the SQL count `LENGTH(s) - LENGTH(REPLACE(s, ',', '')) + 1` is the number of commas plus one |
| SeatList.SeatCountIsPieces | database.py:146-161 | the SQL count `LENGTH(s) - LENGTH(REPLACE(s, ',', '')) + 1` equals the number of pieces of `s.split(',')`, and is at least 1 |
| SeatList.SplitNoComma | booking_service.py:17 | a text without commas splits into itself |
| SeatList.SplitAfterPiece | booking_service.py:17 | splitting `a + ',' + t` with comma-free `a` yields `a` followed by the pieces of `t` |
| SeatList.SplitJoin | app.py:203 | a non-empty selection of comma-free ids survives `','.join` then `split(',')` |
| SeatList.JoinSplit | app.py:203 | `','.join(s.split(','))` gives back `s` for every text |
| SeatList.JoinEmptyFirst | app.py:203 | a leading empty piece joins as a leading comma |
| SeatList.JoinExtendFirst | app.py:203 | lengthening the first piece by one character lengthens the joined text the same way |
| SeatList.EmptySelectionReadsBackAsOnePiece | app.py:203 | the empty selection is stored as "" and reads back as one empty piece |
| BookingService.EveryChar | booking_service.py:30 | a character class holds of a whole text iff it holds at every position |
| BookingService.IndexOf | booking_service.py:30 | a position it finds holds the character |
| BookingService.IndexOfIsFirst | booking_service.py:30 | None only when the character does not occur, and no occurrence before the position found |
| BookingService.LastIndexOf | booking_service.py:7 | a position it finds holds the character |
| BookingService.LastIndexOfIsLast | booking_service.py:7 | None only when the character does not occur (then `'.' in filename` fails), and no occurrence after the position found, which is where `rsplit(c, 1)` splits |
| BookingService.FirstIndexIsUnique | booking_service.py:30 | a position holding the character with none before it is the first occurrence |
| BookingService.LastIndexIsUnique | booking_service.py:7 | a position holding the character with none after it is the last occurrence |
| BookingService.Lower | booking_service.py:7 | lower-casing keeps the length, leaves no capital A-Z, keeps every other character, and turns each capital into the same letter in lower case |
| BookingService.LowerIdempotent | booking_service.py:7 | lower-casing twice is lower-casing once |
| BookingService.LastDotFound | booking_service.py:7 | the last dot of a name is exactly the position LastIndexOf finds, and None means the name has no dot |
| BookingService.AllowedFile | booking_service.py:4-7 | a file name is allowed iff it has a dot and the lower-cased text after its last dot is png, jpg, jpeg or gif |
| BookingService.AllowedFileExamples | booking_service.py:4-7 | "poster.PNG" and "a.b.jpeg" are allowed |
| BookingService.RefusedFileExamples | booking_service.py:4-7 | "poster.png.exe" and "png" are refused |
| BookingService.AddressShapeSound | booking_service.py:28-31 | a text accepted by the split-at-first-'@' and split-at-last-dot decision matches the email pattern |
| BookingService.AddressSplitPoints | booking_service.py:28-31 | in any match, the '@' is the first one and the dot before the top-level domain is the last one after it |
| BookingService.AddressShapeComplete | booking_service.py:28-31 | every match of the email pattern is accepted by the decision |
| BookingService.AddressShapeDecidesPattern | booking_service.py:28-31 | the decision accepts exactly the texts that `[A-Za-z0-9._%+-]+@[A-Za-z0-9.-]+\.[A-Za-z]{2,}` matches in full |
| BookingService.AddressEndsWithLetter | booking_service.py:30 | every matched text ends with a letter, so never with a newline |
| BookingService.ValidateEmail | booking_service.py:28-31 | validate_email accepts exactly a full match of the pattern, optionally followed by one newline, as `$` allows |
| BookingService.NewlineIgnored | booking_service.py:30-31 | a text followed by one newline is accepted iff the text matches the pattern |
| BookingService.ValidateEmailExamples | booking_service.py:28-31 | "mario@test.com" is accepted |
| BookingService.ValidateEmailTrailingNewline | booking_service.py:28-31 | "mario@test.com" followed by a newline is accepted |
| BookingService.ExampleAddress | booking_service.py:30 | "mario@test.com" splits into local part, domain and top-level domain at positions 5 and 10 |
| BookingService.AnyUnavailable | booking_service.py:47 | true iff some selected seat is booked or unavailable |
| BookingService.ValidateBookingForm | booking_service.py:33-50 | each error is returned exactly when the earlier checks pass and its own fails, in the order: no seat, missing name or email, bad email, taken seat; acceptance iff all four pass |
| BookingService.ValidateAdminBookingForm | booking_service.py:52-66 | the same order without the email checks: no seat, missing name, taken seat; acceptance iff all pass |
| BookingService.AdminFormDropsEmailChecks | booking_service.py:33-66 | with a well-formed email the two validators agree; whatever the user form accepts, the admin form accepts |
| BookingService.SeatsOfRowsMembers | booking_service.py:22-25 | the union accumulated over the rows holds exactly the pieces of their seat lists |
| BookingService.GetBookedSeats | booking_service.py:20-26 | the result is exactly the set of seats held for the event by bookings in status 1, 2 or 3 |
| BookingService.CheckSeatsAvailable | booking_service.py:9-18 | true iff no candidate seat is held for the event, and true for no candidates |
| Database.HeldSeats | booking_service.py:20-26 | the seats held for an event, read back with `split(',')`: none contains a comma |
| Database.AfterSweep | database.py:18-22 | the sweep keeps every row and changes exactly the expired pending ones, only in their status; afterwards none is expired |
| Database.WithoutEvent | database.py:85 | no booking of the deleted event remains, and every booking of another event stays, unchanged |
| Database.Select | database.py:27-39 | a table scan returns exactly the rows satisfying the filter, each once |
| Database.InsertionPoint | database.py:107-110 | the place that keeps a list in descending `created_at` text order when a row is inserted |
| Database.InsertKeepsDescending | database.py:107-110 | inserting at that place keeps descending `created_at` text order |
| Database.InsertKeepsDistinct | database.py:107-110 | inserting a row with a new id keeps the ids distinct |
| Database.InsertStep | database.py:107-110 | one insertion keeps the rows in descending `created_at` text order, with distinct ids, and a permutation of the rows read so far |
| Database.SortByCreatedAtDesc | database.py:107-110 | the rows come out in descending `created_at` text order, as a permutation of the input |
| Database.SeatsWithStatusRemove | database.py:146-149 | the SQL sum splits into one row's contribution plus the sum over the others |
| Database.Store.constructor | db_init.py:9-33 | an empty database: both tables empty, both counters at 1 |
| Database.Store.BookingById | database.py:90-95 | the row stored under the id, or None when there is none |
| Database.Store.EventById | database.py:41-46 | the event stored under the id, or None when there is none |
| Database.Store.CreateBooking | database.py:114-125 | inserts one row with the given fields and timestamp under a fresh id, larger than every id issued, and returns that id; nothing else changes |
| Database.Store.UpdateBookingStatus | database.py:127-132 | overwrites that row's status, whatever it was; a missing id changes nothing |
| Database.Store.DeleteBooking | database.py:134-139 | removes exactly that row; a missing id changes nothing |
| Database.Store.ResetExpiredTransactions | database.py:11-25 | sets status 0 on exactly the pending rows whose `created_at` text is `<=` the cutoff |
| Database.Store.BookingsByEvent | database.py:97-112 | exactly the event's rows, restricted to the given statuses if any; without a filter in descending `created_at` text order, which is not chronological for day-first timestamps |
| Database.Store.EventStats | database.py:141-164 | for status 1, 2 and 3 separately, the SQL seat count summed over the event's rows |
| Database.Store.CreateEvent | database.py:48-56 | inserts the event under a fresh id with visible = 1 |
| Database.Store.UpdateEvent | database.py:58-66 | overwrites every column of that event; a missing id changes nothing |
| Database.Store.HideEvent | database.py:68-73 | sets only that event's visible flag to 0 |
| Database.Store.ShowEvent | database.py:75-80 | sets only that event's visible flag to 1 |
| Database.Store.DeleteEvent | database.py:82-88 | removes the event and every booking of it |
| Database.Store.AllEvents | database.py:27-32 | exactly the events with visible = 1, each once |
| Database.Store.AllEventsAdmin | database.py:34-39 | every event, each once |
| StoreProperties.SweepIdempotent | database.py:18-22 | a second sweep with the same cutoff changes nothing |
| StoreProperties.SweepFreesExpiredSeats | database.py:18-22 | after the sweep the held seats are those of the table without the expired bookings |
| StoreProperties.SweepComparesText | database.py:17-22 | the cutoff compares day-first text: noon on 28 February is not before midnight on 1 March, and 00:01 on 1 March is before 23:57 on 28 February |
| StoreProperties.CreatedBookingHoldsSeats | app.py:203-204 | a new booking in status 1, 2 or 3 of `','.join(selected)` holds every comma-free selected seat, and every seat held before stays held |
| StoreProperties.DeleteReleasesOnlyItsSeats | test_delete_transaction.py:65-70 | deleting a booking frees only its own seats, and each of them unless another held booking of the event has it |
| StoreProperties.CreateThenDeleteRestores | test_delete_transaction.py:80 | creating then deleting a booking restores the table and the held seats |
| StoreProperties.DeleteEventCascades | database.py:82-88 | after the cascade the deleted event holds no seat, and every other event holds the same seats as before |
| StoreProperties.SeatsWithStatusZeroIffNone | database.py:146-161 | a per-status count is never negative, and it is 0 exactly when the event has no booking in that status |
| StoreProperties.HiddenIsAllMinusVisible | test_visibility.py:26-28 | the admin list's length minus the public list's length is the number of hidden events |
| StoreProperties.DistinctEventsCount | test_visibility.py:26-28 | a listing with distinct ids has as many entries as distinct events |
| App.CreateKeepsNoDoubleBooking | app.py:176-204 | inserting a booking none of whose seats is held keeps every seat held at most once |
| App.FewerHoldsKeepNoDoubleBooking | app.py:324-342 | deleting rows or releasing them never creates a double booking |
| App.AcceptedSelectionKeepsNoDoubleBooking | app.py:176-204 | an accepted selection of comma-free ids, stored joined, keeps every seat held at most once |
| App.AcceptedInsert | app.py:202-204 | after an accepted insert the selected seats are held, statuses stay in 0..3 and no seat is held twice |
| App.CommaSeatIdDoubleBooks | app.py:230-263 | a submitted id `a + ',' + b` with `b` held passes the admin validator (given a name) and the booking it creates holds `b` a second time |
| App.SelectSeats | app.py:160-214 | missing event, rejection with the validator's first error and the message flashed for it, or a new pending booking of `','.join(selected)` exactly when the form is valid against the held seats; refusals change nothing; the re-check never fails; invariants kept |
| App.AdminBookSeats | app.py:218-274 | as the user handler with the admin validator and status 3; an absent email field makes the INSERT fail and changes nothing |
| App.PaymentSuccess | app.py:310-330 | a booking becomes paid iff it exists and is pending; any other status, a missing booking or no session changes nothing |
| App.PaymentCancel | app.py:332-344 | with a session, the booking is deleted whatever its status; without one nothing changes |
| App.ResendTicket | app.py:361-376 | the ticket is sent, to the booking's email, iff the booking exists and is paid or validated; the store is only read |
| App.DeleteTransaction | app.py:378-396 | the booking is removed and returned iff it exists; otherwise nothing changes |
| App.PosterAfterEdit | app.py:122-129 | the poster changes only for a non-empty, whitelisted upload, and then to `/static/posters/` plus the secured name |
| App.EditEvent | app.py:108-138 | a missing event changes nothing; otherwise title, date, time, price and poster are overwritten and the visible flag is kept |
| App.SweepKeepsInvariants | database.py:18-22 | the expiry sweep keeps statuses in 0..3 and every seat held at most once |
| App.DeleteEventKeepsInvariants | database.py:82-88 | deleting an event's bookings keeps both invariants |

## Left out

- The payment provider: creating and retrieving checkout sessions, and `unit_amount = int(price * 100)`. These are a remote call and float arithmetic. The booking id read from the session metadata is an input.
- Sending tickets by e-mail and generating the PDF. This is I/O, and `resend_ticket` and `payment_success` only report that a ticket is sent.
- The background scheduler, and the race between the availability re-check and the INSERT. Every handler and the sweep run atomically, one at a time.
- `datetime.now()`, `now - 5 minutes` and the `strftime`/`strptime` formatting. The timestamp, the sweep cutoff and the reformatted event date are passed in as already formatted text. A date `strptime` cannot parse is not modelled.
- Float prices. The price is carried as a `real`, with no arithmetic on it. A form price that is not a number is not modelled.
- `secure_filename` and saving the uploaded file. The first is a function parameter; the second is I/O.
- The login check, the flashed messages, the redirects and the rendered templates. The outcome datatypes stand for them.
- Missing form fields in `edit_event` (`request.form['title']` and so on raise a 400). The model takes the fields as given.
- The foreign key from bookings to events is not enforced by SQLite without `PRAGMA foreign_keys`. The model does not enforce it either.
- BookingService.Lower: lower-cases ASCII capitals only. Python's `str.lower` also maps non-ASCII letters. The verdict of `allowed_file` is the same, because the only non-ASCII character that lowers into an ASCII letter is the KELVIN SIGN, which lowers to 'k', and 'k' occurs in no whitelisted extension.
- Database.Store.UpdateBookingStatus: accepts any integer status, as the REAL column does. The 0..3 domain is an invariant the handlers keep (`App.StatusesInDomain`), not a check.
- Database.Store.BookingsByEvent: with a status filter the source selects only the `seats` column. The model returns whole rows, of which the callers read only `seats`.
