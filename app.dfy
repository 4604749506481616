/** The booking-lifecycle decisions of the request handlers (app.py) as methods over
    the store: each reads the store, branches on validation or on the booking's
    status, and performs at most one create, update or delete. Stripe, Flask, the
    e-mail service and file saving are replaced by parameters or left out. */
module App {
  import opened Records
  import opened SeatList
  import opened Database
  import opened BookingService
  import opened StoreProperties

  /** What a booking POST (user or admin) ends in. */
  datatype BookingOutcome =
    | EventNotFound            // "Evento non trovato.", redirect
    | Rejected(error: FormError, message: string) // `message` is flashed, the page re-rendered
    | SeatsTaken               // the final availability re-check failed
    | InsertFailed             // the INSERT is refused (email NULL violates NOT NULL)
    | Created(id: int)         // the new booking's id

  /** What payment_success ends in. */
  datatype PaymentOutcome =
    | NoSession      // no session_id in the query string
    | BookingMissing // the booking is gone: `booking['event_id']` fails on None
    | Paid           // pending -> paid, ticket e-mailed
    | NotPending     // "Prenotazione non trovata o già pagata"

  /** What resend_ticket ends in. */
  datatype ResendOutcome =
    | NotFound
    | NotPaid
    | Sent(to: string) // the ticket goes to the booking's e-mail address

  /** No submitted seat id contains the separator of the stored seat list. */
  predicate NoCommas(selected: seq<string>) {
    forall i :: 0 <= i < |selected| ==> ',' !in selected[i]
  }

  /** Every stored status lies in the domain 0..3. */
  ghost predicate StatusesInDomain(m: map<int, Booking>) {
    forall id :: id in m ==> StatusInDomain(m[id])
  }

  /** No seat of an event is held by two different bookings. */
  ghost predicate NoDoubleBooking(m: map<int, Booking>) {
    forall i, j, s ::
      i in m && j in m && i != j && m[i].eventId == m[j].eventId && IsHeld(m[i]) && IsHeld(m[j])
      && s in Split(m[i].seats)
      ==> s !in Split(m[j].seats)
  }

  // ---------------------------------------------------------------------------
  // The no-double-booking invariant

  /** Inserting a booking none of whose seats is held keeps every seat held at most once. */
  lemma CreateKeepsNoDoubleBooking(m: map<int, Booking>, b: Booking)
    requires NoDoubleBooking(m) && b.id !in m
    requires forall s :: s in Split(b.seats) ==> s !in HeldSeats(m, b.eventId)
    ensures NoDoubleBooking(m[b.id := b])
  {
    var m' := m[b.id := b];
    forall i, j, s | i in m' && j in m' && i != j && m'[i].eventId == m'[j].eventId
                     && IsHeld(m'[i]) && IsHeld(m'[j]) && s in Split(m'[i].seats)
      ensures s !in Split(m'[j].seats)
    {
      if i == b.id {
        assert m'[j] == m[j] && m[j] in m.Values;
      } else if j == b.id {
        assert m'[i] == m[i] && m[i] in m.Values;
      } else {
        assert m'[i] == m[i] && m'[j] == m[j];
      }
    }
  }

  /** Removing rows, or releasing them, never creates a double booking: it covers
      payment, cancellation, deletion and the expiry sweep. */
  lemma FewerHoldsKeepNoDoubleBooking(m: map<int, Booking>, m': map<int, Booking>)
    requires NoDoubleBooking(m)
    requires m'.Keys <= m.Keys
    requires forall k :: k in m' ==> m'[k].eventId == m[k].eventId && m'[k].seats == m[k].seats
                                     && (IsHeld(m'[k]) ==> IsHeld(m[k]))
    ensures NoDoubleBooking(m')
  {
    forall i, j, s | i in m' && j in m' && i != j && m'[i].eventId == m'[j].eventId
                     && IsHeld(m'[i]) && IsHeld(m'[j]) && s in Split(m'[i].seats)
      ensures s !in Split(m'[j].seats)
    {
      assert IsHeld(m[i]) && IsHeld(m[j]) && s in Split(m[i].seats);
    }
  }

  /** A form whose seat ids contain no comma and pass validation leads to a store
      without double bookings. */
  lemma {:induction false} AcceptedSelectionKeepsNoDoubleBooking(m: map<int, Booking>, b: Booking, selected: seq<string>)
    requires NoDoubleBooking(m) && b.id !in m
    requires b.seats == Join(selected) && |selected| >= 1 && NoCommas(selected)
    requires forall s :: s in selected ==> s !in HeldSeats(m, b.eventId)
    ensures NoDoubleBooking(m[b.id := b])
  {
    SplitJoin(selected);
    CreateKeepsNoDoubleBooking(m, b);
  }

  /** Seat ids are not checked for commas. When seat `b` of event `e` is held, the
      admin form accepts the single submitted id `a + "," + b` (no held seat id
      contains a comma), and the booking it creates holds `b` a second time. */
  lemma CommaSeatIdDoubleBooks(m: map<int, Booking>, e: int, a: string, b: string, unavailable: set<string>,
                               nb: Booking)
    requires ',' !in a && ',' !in b && b in HeldSeats(m, e)
    requires a + "," + b !in unavailable
    requires nb.id !in m && nb.eventId == e && nb.status == VALIDATED && nb.seats == Join([a + "," + b])
    ensures ValidateAdminBookingForm(Some(nb.name), [a + "," + b], HeldSeats(m, e), unavailable) == None
            <==> nb.name != ""
    ensures !NoDoubleBooking(m[nb.id := nb])
  {
    var id := a + "," + b;
    assert ',' in id by { assert id[|a|] == ','; }
    forall s | s in HeldSeats(m, e) ensures ',' !in s {
      var c :| c in m.Values && c.eventId == e && IsHeld(c) && s in Split(c.seats);
    }
    assert forall s :: s in [id] <==> s == id;
    var c :| c in m.Values && c.eventId == e && IsHeld(c) && b in Split(c.seats);
    var k := KeyOf(m, c);
    SplitAfterPiece(a, b);
    SplitNoComma(b);
    var m' := m[nb.id := nb];
    assert m'[k] == c && m'[nb.id] == nb;
    assert b in Split(m'[nb.id].seats) && b in Split(m'[k].seats);
  }

  /** What inserting an accepted booking does to the invariants: its seats become
      held (for comma-free ids), statuses stay in 0..3, and no seat is held twice. */
  lemma {:induction false} AcceptedInsert(m: map<int, Booking>, b: Booking, selected: seq<string>)
    requires b.id !in m && IsHeld(b) && b.seats == Join(selected) && |selected| >= 1
    requires forall s :: s in selected ==> s !in HeldSeats(m, b.eventId)
    ensures NoCommas(selected) ==> forall s :: s in selected ==> s in HeldSeats(m[b.id := b], b.eventId)
    ensures StatusesInDomain(m) ==> StatusesInDomain(m[b.id := b])
    ensures NoDoubleBooking(m) && NoCommas(selected) ==> NoDoubleBooking(m[b.id := b])
  {
    if NoCommas(selected) {
      CreatedBookingHoldsSeats(m, b, selected);
      if NoDoubleBooking(m) {
        AcceptedSelectionKeepsNoDoubleBooking(m, b, selected);
      }
    }
  }

  // ---------------------------------------------------------------------------
  // select_seats (POST), admin_book_seats (POST)

  /** select_seats, POST: validates the form against the held seats and the
      unavailable ones, re-checks availability, then inserts a pending booking of
      `','.join(selected)` created at `now`. Any refusal leaves the store unchanged. */
  method SelectSeats(db: Store, eventId: int, selected: seq<string>, name: Option<string>,
                     email: Option<string>, unavailable: set<string>, now: string)
    returns (out: BookingOutcome)
    requires db.Valid()
    modifies db
    ensures db.Valid()
    ensures out == EventNotFound <==> eventId !in old(db.events)
    ensures out.Rejected? <==>
            eventId in old(db.events)
            && ValidateBookingForm(name, email, selected, HeldSeats(old(db.bookings), eventId), unavailable).Some?
    ensures out.Rejected? ==>
              ValidateBookingForm(name, email, selected, HeldSeats(old(db.bookings), eventId), unavailable)
              == Some(out.error)
              && out.message == Message(out.error)
    ensures out.Created? <==>
            eventId in old(db.events)
            && ValidateBookingForm(name, email, selected, HeldSeats(old(db.bookings), eventId), unavailable) == None
    ensures out != SeatsTaken && out != InsertFailed
    ensures out.Created? ==>
              && out.id == old(db.nextBookingId) && db.nextBookingId == out.id + 1
              && db.bookings == old(db.bookings)[out.id := Booking(out.id, eventId, name.value, email.value,
                                                                   Join(selected), PENDING, now)]
    ensures !out.Created? ==> db.bookings == old(db.bookings) && db.nextBookingId == old(db.nextBookingId)
    ensures db.events == old(db.events) && db.nextEventId == old(db.nextEventId)
    ensures out.Created? && NoCommas(selected) ==>
              forall s :: s in selected ==> s in HeldSeats(db.bookings, eventId)
    ensures StatusesInDomain(old(db.bookings)) ==> StatusesInDomain(db.bookings)
    ensures NoDoubleBooking(old(db.bookings)) && NoCommas(selected) ==> NoDoubleBooking(db.bookings)
  {
    var event := db.EventById(eventId);
    if event.None? {
      return EventNotFound;
    }
    var booked := GetBookedSeats(db, eventId);
    var error := ValidateBookingForm(name, email, selected, booked, unavailable);
    if error.Some? {
      return Rejected(error.value, Message(error.value));
    }
    var available := CheckSeatsAvailable(db, eventId, selected);
    if !available {
      assert false;
      return SeatsTaken;
    }
    AcceptedInsert(db.bookings, Booking(db.nextBookingId, eventId, name.value, email.value, Join(selected), PENDING, now),
                   selected);
    var id := db.CreateBooking(eventId, name.value, email.value, Join(selected), PENDING, now);
    out := Created(id);
  }

  /** admin_book_seats, POST: validates the form without the email checks,
      re-checks availability, then inserts a booking of `','.join(selected)` in
      status 3 (paid at the desk). The email column is NOT NULL, so a form without
      an email field is refused by the INSERT. */
  method AdminBookSeats(db: Store, eventId: int, selected: seq<string>, name: Option<string>,
                        email: Option<string>, unavailable: set<string>, now: string)
    returns (out: BookingOutcome)
    requires db.Valid()
    modifies db
    ensures db.Valid()
    ensures out == EventNotFound <==> eventId !in old(db.events)
    ensures out.Rejected? <==>
            eventId in old(db.events)
            && ValidateAdminBookingForm(name, selected, HeldSeats(old(db.bookings), eventId), unavailable).Some?
    ensures out.Rejected? ==>
              ValidateAdminBookingForm(name, selected, HeldSeats(old(db.bookings), eventId), unavailable)
              == Some(out.error)
              && out.message == Message(out.error)
    ensures out == InsertFailed <==>
            eventId in old(db.events)
            && ValidateAdminBookingForm(name, selected, HeldSeats(old(db.bookings), eventId), unavailable) == None
            && email.None?
    ensures out.Created? <==>
            eventId in old(db.events)
            && ValidateAdminBookingForm(name, selected, HeldSeats(old(db.bookings), eventId), unavailable) == None
            && email.Some?
    ensures out != SeatsTaken
    ensures out.Created? ==>
              && out.id == old(db.nextBookingId) && db.nextBookingId == out.id + 1
              && db.bookings == old(db.bookings)[out.id := Booking(out.id, eventId, name.value, email.value,
                                                                   Join(selected), VALIDATED, now)]
    ensures !out.Created? ==> db.bookings == old(db.bookings) && db.nextBookingId == old(db.nextBookingId)
    ensures db.events == old(db.events) && db.nextEventId == old(db.nextEventId)
    ensures out.Created? && NoCommas(selected) ==>
              forall s :: s in selected ==> s in HeldSeats(db.bookings, eventId)
    ensures StatusesInDomain(old(db.bookings)) ==> StatusesInDomain(db.bookings)
    ensures NoDoubleBooking(old(db.bookings)) && NoCommas(selected) ==> NoDoubleBooking(db.bookings)
  {
    var event := db.EventById(eventId);
    if event.None? {
      return EventNotFound;
    }
    var booked := GetBookedSeats(db, eventId);
    var error := ValidateAdminBookingForm(name, selected, booked, unavailable);
    if error.Some? {
      return Rejected(error.value, Message(error.value));
    }
    var available := CheckSeatsAvailable(db, eventId, selected);
    if !available {
      assert false;
      return SeatsTaken;
    }
    if email.None? {
      return InsertFailed;
    }
    AcceptedInsert(db.bookings, Booking(db.nextBookingId, eventId, name.value, email.value, Join(selected), VALIDATED, now),
                   selected);
    var id := db.CreateBooking(eventId, name.value, email.value, Join(selected), VALIDATED, now);
    out := Created(id);
  }

  // ---------------------------------------------------------------------------
  // payment_success, payment_cancel

  /** payment_success: `session` is the booking id recovered from the payment
      session's metadata, or None when the request carries no session id. Only a
      pending booking becomes paid; any other status is left as it is. */
  method PaymentSuccess(db: Store, session: Option<int>) returns (out: PaymentOutcome)
    requires db.Valid()
    modifies db
    ensures db.Valid()
    ensures out == NoSession <==> session.None?
    ensures out == BookingMissing <==> session.Some? && session.value !in old(db.bookings)
    ensures out == Paid <==>
            session.Some? && session.value in old(db.bookings) && old(db.bookings)[session.value].status == PENDING
    ensures db.bookings == if out == Paid
                           then old(db.bookings)[session.value := old(db.bookings)[session.value].(status := PAID)]
                           else old(db.bookings)
    ensures db.events == old(db.events)
    ensures db.nextBookingId == old(db.nextBookingId) && db.nextEventId == old(db.nextEventId)
    ensures StatusesInDomain(old(db.bookings)) ==> StatusesInDomain(db.bookings)
    ensures NoDoubleBooking(old(db.bookings)) ==> NoDoubleBooking(db.bookings)
  {
    if session.None? {
      return NoSession;
    }
    var id := session.value;
    var booking := db.BookingById(id);
    if booking.None? {
      return BookingMissing;
    }
    if booking.value.status == PENDING {
      ghost var before := db.bookings;
      db.UpdateBookingStatus(id, PAID);
      if NoDoubleBooking(before) {
        FewerHoldsKeepNoDoubleBooking(before, db.bookings);
      }
      out := Paid;
    } else {
      out := NotPending;
    }
  }

  /** payment_cancel: deletes the booking named by the payment session, whatever
      its status; without a session id nothing happens. */
  method PaymentCancel(db: Store, session: Option<int>) returns (handled: bool)
    requires db.Valid()
    modifies db
    ensures db.Valid()
    ensures handled <==> session.Some?
    ensures db.bookings == if handled then old(db.bookings) - {session.value} else old(db.bookings)
    ensures db.events == old(db.events)
    ensures db.nextBookingId == old(db.nextBookingId) && db.nextEventId == old(db.nextEventId)
    ensures StatusesInDomain(old(db.bookings)) ==> StatusesInDomain(db.bookings)
    ensures NoDoubleBooking(old(db.bookings)) ==> NoDoubleBooking(db.bookings)
  {
    if session.None? {
      return false;
    }
    ghost var before := db.bookings;
    db.DeleteBooking(session.value);
    if NoDoubleBooking(before) {
      FewerHoldsKeepNoDoubleBooking(before, db.bookings);
    }
    handled := true;
  }

  // ---------------------------------------------------------------------------
  // resend_ticket, delete_transaction

  /** resend_ticket: the ticket is sent, to the booking's address, only for a paid
      or validated booking; the store is only read. */
  method ResendTicket(db: Store, bookingId: int) returns (out: ResendOutcome)
    requires db.Valid()
    ensures out == NotFound <==> bookingId !in db.bookings
    ensures out == NotPaid <==>
            bookingId in db.bookings && db.bookings[bookingId].status != PAID
            && db.bookings[bookingId].status != VALIDATED
    ensures out.Sent? <==>
            bookingId in db.bookings
            && (db.bookings[bookingId].status == PAID || db.bookings[bookingId].status == VALIDATED)
    ensures out.Sent? ==> out.to == db.bookings[bookingId].email
  {
    var booking := db.BookingById(bookingId);
    if booking.None? {
      return NotFound;
    }
    if booking.value.status != PAID && booking.value.status != VALIDATED {
      return NotPaid;
    }
    out := Sent(booking.value.email);
  }

  /** delete_transaction: removes the booking if it exists and returns the deleted
      row (its seats and name make up the confirmation message); otherwise nothing
      changes. */
  method DeleteTransaction(db: Store, bookingId: int) returns (deleted: Option<Booking>)
    requires db.Valid()
    modifies db
    ensures db.Valid()
    ensures deleted.Some? <==> bookingId in old(db.bookings)
    ensures deleted.Some? ==> deleted.value == old(db.bookings)[bookingId]
    ensures db.bookings == old(db.bookings) - {bookingId}
    ensures db.events == old(db.events)
    ensures db.nextBookingId == old(db.nextBookingId) && db.nextEventId == old(db.nextEventId)
    ensures StatusesInDomain(old(db.bookings)) ==> StatusesInDomain(db.bookings)
    ensures NoDoubleBooking(old(db.bookings)) ==> NoDoubleBooking(db.bookings)
  {
    var booking := db.BookingById(bookingId);
    if booking.None? {
      assert old(db.bookings) - {bookingId} == old(db.bookings);
      return None;
    }
    ghost var before := db.bookings;
    db.DeleteBooking(bookingId);
    if NoDoubleBooking(before) {
      FewerHoldsKeepNoDoubleBooking(before, db.bookings);
    }
    deleted := booking;
  }

  // ---------------------------------------------------------------------------
  // edit_event (POST)

  /** The poster URL after an edit: a new upload with a non-empty, whitelisted file
      name replaces it by the URL of the saved file; otherwise it is kept. */
  function PosterAfterEdit(current: Option<string>, upload: Option<string>, secure: string -> string): (r: Option<string>)
    ensures r != current ==> upload.Some? && upload.value != "" && AllowedFile(upload.value)
    ensures upload.Some? && AllowedFile(upload.value) ==> r == Some("/static/posters/" + secure(upload.value))
  {
    if upload.Some? && upload.value != "" && AllowedFile(upload.value)
    then Some("/static/posters/" + secure(upload.value))
    else current
  }

  /** edit_event, POST: overwrites title, date, time, price and poster of an existing
      event and keeps its visible flag. `date` is the already reformatted text,
      `upload` the uploaded file's name (None when no file part was sent) and
      `secure` stands for secure_filename. */
  method EditEvent(db: Store, eventId: int, title: string, date: string, time: string, price: real,
                   upload: Option<string>, secure: string -> string)
    returns (found: bool)
    requires db.Valid()
    modifies db
    ensures db.Valid()
    ensures found <==> eventId in old(db.events)
    ensures found ==>
              db.events == old(db.events)[eventId := Event(eventId, title, date, time, price,
                                                           PosterAfterEdit(old(db.events)[eventId].posterUrl, upload, secure),
                                                           old(db.events)[eventId].visible)]
    ensures found ==> db.events[eventId].visible == old(db.events)[eventId].visible
    ensures !found ==> db.events == old(db.events)
    ensures db.bookings == old(db.bookings)
    ensures db.nextBookingId == old(db.nextBookingId) && db.nextEventId == old(db.nextEventId)
  {
    var event := db.EventById(eventId);
    if event.None? {
      return false;
    }
    var posterUrl := PosterAfterEdit(event.value.posterUrl, upload, secure);
    db.UpdateEvent(eventId, title, date, time, price, posterUrl, event.value.visible);
    found := true;
  }

  // ---------------------------------------------------------------------------
  // The store operations the scheduler and the dashboard run

  /** The expiry sweep only releases bookings, so it keeps both invariants. */
  lemma SweepKeepsInvariants(m: map<int, Booking>, limit: string)
    ensures StatusesInDomain(m) ==> StatusesInDomain(AfterSweep(m, limit))
    ensures NoDoubleBooking(m) ==> NoDoubleBooking(AfterSweep(m, limit))
  {
    if NoDoubleBooking(m) {
      FewerHoldsKeepNoDoubleBooking(m, AfterSweep(m, limit));
    }
  }

  /** Deleting an event's bookings keeps both invariants. */
  lemma DeleteEventKeepsInvariants(m: map<int, Booking>, e: int)
    ensures StatusesInDomain(m) ==> StatusesInDomain(WithoutEvent(m, e))
    ensures NoDoubleBooking(m) ==> NoDoubleBooking(WithoutEvent(m, e))
  {
    if NoDoubleBooking(m) {
      FewerHoldsKeepNoDoubleBooking(m, WithoutEvent(m, e));
    }
  }
}
