/** The bookings and events tables (database.py) as an in-memory store: two maps
    keyed by row id plus the AUTOINCREMENT counters. */
module Database {
  import opened Records
  import opened SeatList

  /** The seats held for event `e`: every piece of `seats.split(',')` of every
      booking of `e` that is pending, paid or validated. */
  ghost function HeldSeats(m: map<int, Booking>, e: int): (r: set<string>)
    ensures forall s :: s in r ==> ',' !in s
  {
    set b, s | b in m.Values && b.eventId == e && IsHeld(b) && s in Split(b.seats) :: s
  }

  /** The sweep's WHERE clause: pending, with a `created_at` text `<=` the cutoff text. */
  predicate Expired(b: Booking, limit: string) {
    b.status == PENDING && TextLe(b.createdAt, limit)
  }

  /** The bookings table after `UPDATE bookings SET status = 0 WHERE status = 1 AND created_at <= limit`. */
  function AfterSweep(m: map<int, Booking>, limit: string): (r: map<int, Booking>)
    ensures r.Keys == m.Keys
    ensures forall id :: id in m ==> (r[id] != m[id] <==> Expired(m[id], limit))
    ensures forall id :: id in m && Expired(m[id], limit) ==> r[id] == m[id].(status := RELEASED)
    ensures forall id :: id in r ==> !Expired(r[id], limit)
  {
    map id | id in m :: if Expired(m[id], limit) then m[id].(status := RELEASED) else m[id]
  }

  /** The bookings table after `DELETE FROM bookings WHERE event_id = e`. */
  function WithoutEvent(m: map<int, Booking>, e: int): (r: map<int, Booking>)
    ensures r.Keys <= m.Keys
    ensures forall id :: id in r ==> r[id].eventId != e
    ensures forall id :: id in m && m[id].eventId != e ==> id in r && r[id] == m[id]
  {
    map id | id in m && m[id].eventId != e :: m[id]
  }

  /** What one booking adds to the count of seats of event `e` in status `st`. */
  function Contribution(b: Booking, e: int, st: int): int
  {
    if b.eventId == e && b.status == st then SeatCount(b.seats) else 0
  }

  /** `SUM(LENGTH(seats) - LENGTH(REPLACE(seats, ',', '')) + 1)` over the rows `ids`
      (an empty sum, NULL in SQL, is read as 0 by the caller's `or 0`). */
  ghost function SeatsWithStatus(m: map<int, Booking>, ids: set<int>, e: int, st: int): int
    requires ids <= m.Keys
    decreases ids
  {
    if ids == {} then 0
    else
      var k := SomeKey(ids);
      Contribution(m[k], e, st) + SeatsWithStatus(m, ids - {k}, e, st)
  }

  /** An arbitrary key of a non-empty key set, for definitions by iteration over a table. */
  ghost function SomeKey<K>(keys: set<K>): (k: K)
    requires keys != {}
    ensures k in keys
  {
    var k :| k in keys; k
  }

  /** The next row a table scan visits: any one not visited yet. */
  method NextKey<K>(keys: set<K>) returns (k: K)
    requires keys != {}
    ensures k in keys
  {
    k :| k in keys;
  }

  /** The three counters that get_event_stats returns. */
  datatype Stats = Stats(pending: int, sold: int, validated: int)

  predicate DistinctIds(rows: seq<Booking>) {
    forall i, j :: 0 <= i < j < |rows| ==> rows[i].id != rows[j].id
  }

  /** `ORDER BY created_at DESC`, comparing the timestamps as text. */
  predicate CreatedAtDescending(rows: seq<Booking>) {
    forall i, j :: 0 <= i < j < |rows| ==> TextLe(rows[j].createdAt, rows[i].createdAt)
  }

  /** A table scan `SELECT * FROM t WHERE p`: every row satisfying `p`, each once,
      in no particular order. */
  method Select<K(==), T(==)>(m: map<K, T>, key: T -> K, p: T -> bool) returns (rows: seq<T>)
    requires forall k :: k in m ==> key(m[k]) == k
    ensures forall x :: x in rows <==> x in m.Values && p(x)
    ensures forall i, j :: 0 <= i < j < |rows| ==> key(rows[i]) != key(rows[j])
  {
    rows := [];
    var rest := m.Keys;
    while rest != {}
      invariant rest <= m.Keys
      invariant forall x :: x in rows <==> (exists k :: k in m.Keys - rest && m[k] == x) && p(x)
      invariant forall i :: 0 <= i < |rows| ==> key(rows[i]) in m.Keys - rest
      invariant forall i, j :: 0 <= i < j < |rows| ==> key(rows[i]) != key(rows[j])
      decreases rest
    {
      var k := NextKey(rest);
      if p(m[k]) {
        rows := rows + [m[k]];
      }
      rest := rest - {k};
    }
    assert m.Keys - rest == m.Keys;
    forall x | x in m.Values && p(x)
      ensures x in rows
    {
      var k :| k in m.Keys && m[k] == x;
    }
  }

  function BookingKey(b: Booking): int { b.id }

  function EventKey(ev: Event): int { ev.id }

  /** Where `b` goes in rows in descending `created_at` text order: after every row whose
      `created_at` text is strictly greater. */
  function InsertionPoint(rows: seq<Booking>, b: Booking): (k: nat)
    requires CreatedAtDescending(rows)
    ensures k <= |rows|
    ensures forall i :: 0 <= i < k ==> !TextLe(rows[i].createdAt, b.createdAt)
    ensures forall i :: k <= i < |rows| ==> TextLe(rows[i].createdAt, b.createdAt)
    decreases |rows|
  {
    if rows == [] then 0
    else if TextLe(rows[0].createdAt, b.createdAt) then
      assert forall i :: 0 <= i < |rows| ==> TextLe(rows[i].createdAt, b.createdAt) by {
        forall i | 0 < i < |rows| {
          TextLeTransitive(rows[i].createdAt, rows[0].createdAt, b.createdAt);
        }
      }
      0
    else
      1 + InsertionPoint(rows[1..], b)
  }

  lemma InsertKeepsDescending(rows: seq<Booking>, b: Booking)
    requires CreatedAtDescending(rows)
    ensures CreatedAtDescending(rows[..InsertionPoint(rows, b)] + [b] + rows[InsertionPoint(rows, b)..])
  {
    var k := InsertionPoint(rows, b);
    var r := rows[..k] + [b] + rows[k..];
    forall i, j | 0 <= i < j < |r|
      ensures TextLe(r[j].createdAt, r[i].createdAt)
    {
      if j == k {
        TextLeTotal(rows[i].createdAt, b.createdAt);
      } else if i == k {
        assert r[j] == rows[j - 1];
      } else if i < k && k < j {
        assert r[j] == rows[j - 1];
      } else if k < i {
        assert r[i] == rows[i - 1] && r[j] == rows[j - 1];
      }
    }
  }

  lemma InsertKeepsDistinct(rows: seq<Booking>, b: Booking, k: nat)
    requires DistinctIds(rows) && k <= |rows|
    requires forall x :: x in rows ==> x.id != b.id
    ensures DistinctIds(rows[..k] + [b] + rows[k..])
  {
    var r := rows[..k] + [b] + rows[k..];
    forall i, j | 0 <= i < j < |r|
      ensures r[i].id != r[j].id
    {
      if i == k {
        assert r[j] in rows;
      } else if j == k {
        assert r[i] in rows;
      } else if i < k && k < j {
        assert r[j] == rows[j - 1];
      } else if k < i {
        assert r[i] == rows[i - 1] && r[j] == rows[j - 1];
      }
    }
  }

  /** One insertion step of the sort keeps the rows ordered, with distinct ids,
      and a permutation of the input read so far. */
  lemma InsertStep(rows: seq<Booking>, input: seq<Booking>, n: nat)
    requires n < |input| && DistinctIds(input)
    requires CreatedAtDescending(rows) && DistinctIds(rows) && multiset(rows) == multiset(input[..n])
    ensures var k := InsertionPoint(rows, input[n]);
            var r := rows[..k] + [input[n]] + rows[k..];
            CreatedAtDescending(r) && DistinctIds(r) && multiset(r) == multiset(input[..n + 1])
  {
    var b := input[n];
    var k := InsertionPoint(rows, b);
    InsertKeepsDescending(rows, b);
    forall x | x in rows
      ensures x.id != b.id
    {
      assert x in multiset(input[..n]);
      assert x in input[..n];
    }
    InsertKeepsDistinct(rows, b, k);
    assert rows == rows[..k] + rows[k..];
    assert input[..n + 1] == input[..n] + [b];
  }

  /** Sorts a table scan into descending `created_at` text order by inserting each row
      at its place. */
  method SortByCreatedAtDesc(input: seq<Booking>) returns (rows: seq<Booking>)
    requires DistinctIds(input)
    ensures CreatedAtDescending(rows) && DistinctIds(rows)
    ensures multiset(rows) == multiset(input)
  {
    rows := [];
    for n := 0 to |input|
      invariant CreatedAtDescending(rows) && DistinctIds(rows)
      invariant multiset(rows) == multiset(input[..n])
    {
      var k := InsertionPoint(rows, input[n]);
      InsertStep(rows, input, n);
      rows := rows[..k] + [input[n]] + rows[k..];
    }
    assert input[..|input|] == input;
  }

  /** The two tables of the database and their AUTOINCREMENT counters. */
  class Store {
    var bookings: map<int, Booking>
    var events: map<int, Event>
    /** The id the next inserted booking receives: one more than any id ever issued. */
    var nextBookingId: int
    var nextEventId: int

    /** Rows are stored under their own id, and every id lies below its counter. */
    ghost predicate Valid()
      reads this
    {
      && 1 <= nextBookingId && 1 <= nextEventId
      && (forall id :: id in bookings ==> bookings[id].id == id && 1 <= id < nextBookingId)
      && (forall id :: id in events ==> events[id].id == id && 1 <= id < nextEventId)
    }

    constructor ()
      ensures Valid()
      ensures bookings == map[] && events == map[]
      ensures nextBookingId == 1 && nextEventId == 1
    {
      bookings := map[];
      events := map[];
      nextBookingId := 1;
      nextEventId := 1;
    }

    /** get_booking_by_id: the row stored under `id`, or None. */
    function BookingById(id: int): (r: Option<Booking>)
      reads this
      requires Valid()
      ensures r.Some? <==> id in bookings
      ensures r.Some? ==> r.value == bookings[id] && r.value.id == id
    {
      if id in bookings then Some(bookings[id]) else None
    }

    /** get_event_by_id: the row stored under `id`, or None. */
    function EventById(id: int): (r: Option<Event>)
      reads this
      requires Valid()
      ensures r.Some? <==> id in events
      ensures r.Some? ==> r.value == events[id] && r.value.id == id
    {
      if id in events then Some(events[id]) else None
    }

    /** create_booking: inserts one row under a fresh id and returns that id. */
    method CreateBooking(eventId: int, name: string, email: string, seats: string, status: int, now: string)
      returns (id: int)
      requires Valid()
      modifies this
      ensures Valid()
      ensures id == old(nextBookingId) && nextBookingId == id + 1
      ensures forall k :: k in old(bookings) ==> k < id
      ensures bookings == old(bookings)[id := Booking(id, eventId, name, email, seats, status, now)]
      ensures events == old(events) && nextEventId == old(nextEventId)
    {
      id := nextBookingId;
      bookings := bookings[id := Booking(id, eventId, name, email, seats, status, now)];
      nextBookingId := nextBookingId + 1;
    }

    /** update_booking_status: overwrites the status of that row, whatever it was;
        nothing happens when the id is absent. */
    method UpdateBookingStatus(id: int, status: int)
      requires Valid()
      modifies this
      ensures Valid()
      ensures bookings == if id in old(bookings) then old(bookings)[id := old(bookings)[id].(status := status)]
                          else old(bookings)
      ensures events == old(events)
      ensures nextBookingId == old(nextBookingId) && nextEventId == old(nextEventId)
    {
      if id in bookings {
        bookings := bookings[id := bookings[id].(status := status)];
      }
    }

    /** delete_booking: removes exactly that row (nothing when it is absent). */
    method DeleteBooking(id: int)
      requires Valid()
      modifies this
      ensures Valid()
      ensures bookings == old(bookings) - {id}
      ensures events == old(events)
      ensures nextBookingId == old(nextBookingId) && nextEventId == old(nextEventId)
    {
      bookings := bookings - {id};
    }

    /** reset_transazioni_scadute: releases every pending booking whose `created_at`
        text is `<=` `limit` (the caller's "now minus five minutes", already formatted). */
    method ResetExpiredTransactions(limit: string)
      requires Valid()
      modifies this
      ensures Valid()
      ensures bookings == AfterSweep(old(bookings), limit)
      ensures events == old(events)
      ensures nextBookingId == old(nextBookingId) && nextEventId == old(nextEventId)
    {
      bookings := AfterSweep(bookings, limit);
    }

    /** get_bookings_by_event: with a non-empty status filter, the event's rows in
        those statuses in no particular order; without one (None or []), all the
        event's rows in descending `created_at` text order. */
    method BookingsByEvent(eventId: int, statuses: seq<int>) returns (rows: seq<Booking>)
      requires Valid()
      ensures forall b :: b in rows <==> b in bookings.Values && b.eventId == eventId
                                         && (statuses != [] ==> b.status in statuses)
      ensures DistinctIds(rows)
      ensures statuses == [] ==> CreatedAtDescending(rows)
    {
      assert forall k :: k in bookings ==> BookingKey(bookings[k]) == k;
      if statuses != [] {
        rows := Select(bookings, BookingKey, (b: Booking) => b.eventId == eventId && b.status in statuses);
      } else {
        var scan := Select(bookings, BookingKey, (b: Booking) => b.eventId == eventId);
        rows := SortByCreatedAtDesc(scan);
        forall b ensures b in rows <==> b in scan {
          assert b in rows <==> b in multiset(rows);
        }
      }
    }

    /** get_event_stats: seats of the event that are pending, sold and validated. */
    method EventStats(eventId: int) returns (stats: Stats)
      requires Valid()
      ensures stats.pending == SeatsWithStatus(bookings, bookings.Keys, eventId, PENDING)
      ensures stats.sold == SeatsWithStatus(bookings, bookings.Keys, eventId, PAID)
      ensures stats.validated == SeatsWithStatus(bookings, bookings.Keys, eventId, VALIDATED)
    {
      var pending, sold, validated := 0, 0, 0;
      var rest := bookings.Keys;
      while rest != {}
        invariant rest <= bookings.Keys
        invariant pending + SeatsWithStatus(bookings, rest, eventId, PENDING)
                  == SeatsWithStatus(bookings, bookings.Keys, eventId, PENDING)
        invariant sold + SeatsWithStatus(bookings, rest, eventId, PAID)
                  == SeatsWithStatus(bookings, bookings.Keys, eventId, PAID)
        invariant validated + SeatsWithStatus(bookings, rest, eventId, VALIDATED)
                  == SeatsWithStatus(bookings, bookings.Keys, eventId, VALIDATED)
        decreases rest
      {
        var k := NextKey(rest);
        SeatsWithStatusRemove(bookings, rest, k, eventId, PENDING);
        SeatsWithStatusRemove(bookings, rest, k, eventId, PAID);
        SeatsWithStatusRemove(bookings, rest, k, eventId, VALIDATED);
        var b := bookings[k];
        if b.eventId == eventId {
          if b.status == PENDING {
            pending := pending + SeatCount(b.seats);
          } else if b.status == PAID {
            sold := sold + SeatCount(b.seats);
          } else if b.status == VALIDATED {
            validated := validated + SeatCount(b.seats);
          }
        }
        rest := rest - {k};
      }
      stats := Stats(pending, sold, validated);
    }

    /** create_event: inserts a new event, visible. */
    method CreateEvent(title: string, date: string, time: string, price: real, posterUrl: Option<string>)
      requires Valid()
      modifies this
      ensures Valid()
      ensures nextEventId == old(nextEventId) + 1 && old(nextEventId) !in old(events)
      ensures events == old(events)[old(nextEventId) := Event(old(nextEventId), title, date, time, price, posterUrl, 1)]
      ensures bookings == old(bookings) && nextBookingId == old(nextBookingId)
    {
      var id := nextEventId;
      events := events[id := Event(id, title, date, time, price, posterUrl, 1)];
      nextEventId := nextEventId + 1;
    }

    /** update_event: overwrites every column of that event (nothing when it is absent). */
    method UpdateEvent(eventId: int, title: string, date: string, time: string, price: real,
                       posterUrl: Option<string>, visible: int)
      requires Valid()
      modifies this
      ensures Valid()
      ensures events == if eventId in old(events)
                        then old(events)[eventId := Event(eventId, title, date, time, price, posterUrl, visible)]
                        else old(events)
      ensures bookings == old(bookings)
      ensures nextBookingId == old(nextBookingId) && nextEventId == old(nextEventId)
    {
      if eventId in events {
        events := events[eventId := Event(eventId, title, date, time, price, posterUrl, visible)];
      }
    }

    /** hide_event: sets that event's visible flag to 0. */
    method HideEvent(eventId: int)
      requires Valid()
      modifies this
      ensures Valid()
      ensures events == if eventId in old(events) then old(events)[eventId := old(events)[eventId].(visible := 0)]
                        else old(events)
      ensures bookings == old(bookings)
      ensures nextBookingId == old(nextBookingId) && nextEventId == old(nextEventId)
    {
      if eventId in events {
        events := events[eventId := events[eventId].(visible := 0)];
      }
    }

    /** show_event: sets that event's visible flag to 1. */
    method ShowEvent(eventId: int)
      requires Valid()
      modifies this
      ensures Valid()
      ensures events == if eventId in old(events) then old(events)[eventId := old(events)[eventId].(visible := 1)]
                        else old(events)
      ensures bookings == old(bookings)
      ensures nextBookingId == old(nextBookingId) && nextEventId == old(nextEventId)
    {
      if eventId in events {
        events := events[eventId := events[eventId].(visible := 1)];
      }
    }

    /** delete_event: removes the event's bookings, then the event. */
    method DeleteEvent(eventId: int)
      requires Valid()
      modifies this
      ensures Valid()
      ensures bookings == WithoutEvent(old(bookings), eventId)
      ensures events == old(events) - {eventId}
      ensures nextBookingId == old(nextBookingId) && nextEventId == old(nextEventId)
    {
      bookings := WithoutEvent(bookings, eventId);
      events := events - {eventId};
    }

    /** get_all_events: the events whose visible flag is 1, in no particular order. */
    method AllEvents() returns (rows: seq<Event>)
      requires Valid()
      ensures forall ev :: ev in rows <==> ev in events.Values && ev.visible == 1
      ensures forall i, j :: 0 <= i < j < |rows| ==> rows[i].id != rows[j].id
    {
      assert forall k :: k in events ==> EventKey(events[k]) == k;
      rows := Select(events, EventKey, (ev: Event) => ev.visible == 1);
    }

    /** get_all_events_admin: every event, hidden ones included. */
    method AllEventsAdmin() returns (rows: seq<Event>)
      requires Valid()
      ensures forall ev :: ev in rows <==> ev in events.Values
      ensures forall i, j :: 0 <= i < j < |rows| ==> rows[i].id != rows[j].id
    {
      assert forall k :: k in events ==> EventKey(events[k]) == k;
      rows := Select(events, EventKey, (ev: Event) => true);
    }
  }

  lemma {:induction false} SeatsWithStatusRemove(m: map<int, Booking>, ids: set<int>, k: int, e: int, st: int)
    requires ids <= m.Keys && k in ids
    ensures SeatsWithStatus(m, ids, e, st) == Contribution(m[k], e, st) + SeatsWithStatus(m, ids - {k}, e, st)
    decreases ids
  {
    var y :| y in ids && SeatsWithStatus(m, ids, e, st) == Contribution(m[y], e, st) + SeatsWithStatus(m, ids - {y}, e, st);
    if y != k {
      SeatsWithStatusRemove(m, ids - {y}, k, e, st);
      SeatsWithStatusRemove(m, ids - {k}, y, e, st);
      assert ids - {y} - {k} == ids - {k} - {y};
    }
  }
}

/** Properties of the store's tables that relate several operations. */
module StoreProperties {
  import opened Records
  import opened SeatList
  import opened Database

  /** A key under which a map stores a given value. */
  lemma KeyOf<K, V>(m: map<K, V>, v: V) returns (k: K)
    requires v in m.Values
    ensures k in m && m[k] == v
  {
    k :| k in m && m[k] == v;
  }

  /** Running the sweep a second time with the same cutoff changes nothing. */
  lemma SweepIdempotent(m: map<int, Booking>, limit: string)
    ensures AfterSweep(AfterSweep(m, limit), limit) == AfterSweep(m, limit)
  {
    var once := AfterSweep(m, limit);
    assert forall id :: id in once ==> !Expired(once[id], limit);
  }

  /** After the sweep the held seats are exactly those of the table with the
      expired bookings left out. */
  lemma SweepFreesExpiredSeats(m: map<int, Booking>, limit: string, e: int)
    ensures HeldSeats(AfterSweep(m, limit), e)
            == HeldSeats(map id | id in m && !Expired(m[id], limit) :: m[id], e)
  {
    var after := AfterSweep(m, limit);
    var kept := map id | id in m && !Expired(m[id], limit) :: m[id];
    forall s | s in HeldSeats(after, e)
      ensures s in HeldSeats(kept, e)
    {
      var b :| b in after.Values && b.eventId == e && IsHeld(b) && s in Split(b.seats);
      var id := KeyOf(after, b);
      assert kept[id] == b;
    }
    forall s | s in HeldSeats(kept, e)
      ensures s in HeldSeats(after, e)
    {
      var b :| b in kept.Values && b.eventId == e && IsHeld(b) && s in Split(b.seats);
      var id := KeyOf(kept, b);
      assert after[id] == b;
    }
  }

  /** A pending, paid or validated booking created with `','.join(selected)` holds every selected seat
      (provided no seat id contains a comma), and no seat held before stops being held. */
  lemma {:induction false} CreatedBookingHoldsSeats(m: map<int, Booking>, b: Booking, selected: seq<string>)
    requires b.id !in m
    requires IsHeld(b) && b.seats == Join(selected)
    requires |selected| >= 1
    requires forall i :: 0 <= i < |selected| ==> ',' !in selected[i]
    ensures forall s :: s in selected ==> s in HeldSeats(m[b.id := b], b.eventId)
    ensures HeldSeats(m, b.eventId) <= HeldSeats(m[b.id := b], b.eventId)
  {
    SplitJoin(selected);
    var m' := m[b.id := b];
    assert m'[b.id] == b;
    assert b in m'.Values;
    forall s | s in HeldSeats(m, b.eventId)
      ensures s in HeldSeats(m', b.eventId)
    {
      var c :| c in m.Values && c.eventId == b.eventId && IsHeld(c) && s in Split(c.seats);
      var id := KeyOf(m, c);
      assert m'[id] == c;
    }
  }

  /** Deleting a booking never makes a seat held; a seat leaves the held set only if
      it was one of the deleted booking's seats, and each of those seats leaves it
      unless another held booking of the event still has it. */
  lemma DeleteReleasesOnlyItsSeats(m: map<int, Booking>, id: int, e: int)
    ensures HeldSeats(m - {id}, e) <= HeldSeats(m, e)
    ensures forall s :: s in HeldSeats(m, e) && s !in HeldSeats(m - {id}, e) ==>
              id in m && s in Split(m[id].seats)
    ensures forall s :: id in m && s in Split(m[id].seats)
                        && (forall k :: k in m && k != id && m[k].eventId == e && IsHeld(m[k]) ==> s !in Split(m[k].seats))
                        ==> s !in HeldSeats(m - {id}, e)
  {
    var m' := m - {id};
    forall s | s in HeldSeats(m', e)
      ensures s in HeldSeats(m, e)
    {
      var c :| c in m'.Values && c.eventId == e && IsHeld(c) && s in Split(c.seats);
      var k := KeyOf(m', c);
      assert m[k] == c;
    }
    forall s | s in HeldSeats(m, e)
      ensures s in HeldSeats(m', e) || (id in m && s in Split(m[id].seats))
    {
      var c :| c in m.Values && c.eventId == e && IsHeld(c) && s in Split(c.seats);
      var k := KeyOf(m, c);
      if k != id {
        assert m'[k] == c;
      }
    }
    forall s | s in HeldSeats(m', e)
      ensures exists k :: k in m && k != id && m[k].eventId == e && IsHeld(m[k]) && s in Split(m[k].seats)
    {
      var c :| c in m'.Values && c.eventId == e && IsHeld(c) && s in Split(c.seats);
      var k := KeyOf(m', c);
      assert m[k] == c;
    }
  }

  /** Creating a booking and deleting it again leaves the table as it was
      (test_delete_transaction.py checks the event's booking count). */
  lemma CreateThenDeleteRestores(m: map<int, Booking>, b: Booking)
    requires b.id !in m
    ensures m[b.id := b] - {b.id} == m
    ensures HeldSeats(m[b.id := b] - {b.id}, b.eventId) == HeldSeats(m, b.eventId)
  {
    assert m[b.id := b] - {b.id} == m;
  }

  /** After delete_event the event holds no seat, and every other event holds the same seats. */
  lemma DeleteEventCascades(m: map<int, Booking>, e: int)
    ensures HeldSeats(WithoutEvent(m, e), e) == {}
    ensures forall other :: other != e ==> HeldSeats(WithoutEvent(m, e), other) == HeldSeats(m, other)
  {
    var r := WithoutEvent(m, e);
    assert HeldSeats(r, e) == {};
    forall other | other != e
      ensures HeldSeats(r, other) == HeldSeats(m, other)
    {
      forall s | s in HeldSeats(m, other)
        ensures s in HeldSeats(r, other)
      {
        var c :| c in m.Values && c.eventId == other && IsHeld(c) && s in Split(c.seats);
        var k := KeyOf(m, c);
        assert r[k] == c;
      }
      forall s | s in HeldSeats(r, other)
        ensures s in HeldSeats(m, other)
      {
        var c :| c in r.Values && c.eventId == other && IsHeld(c) && s in Split(c.seats);
        var k := KeyOf(r, c);
        assert m[k] == c;
      }
    }
  }

  /** A per-status seat count is never negative, and it is 0 exactly when the event
      has no booking in that status. */
  lemma {:induction false} SeatsWithStatusZeroIffNone(m: map<int, Booking>, ids: set<int>, e: int, st: int)
    requires ids <= m.Keys
    ensures SeatsWithStatus(m, ids, e, st) >= 0
    ensures SeatsWithStatus(m, ids, e, st) == 0 <==>
            forall id :: id in ids ==> !(m[id].eventId == e && m[id].status == st)
    decreases ids
  {
    if ids != {} {
      var k := SomeKey(ids);
      SeatsWithStatusZeroIffNone(m, ids - {k}, e, st);
      SeatCountIsPieces(m[k].seats);
    }
  }

  /** The two event listings: admins see every event, the public list the visible
      ones, and the difference in length is the number of hidden events. */
  lemma HiddenIsAllMinusVisible(events: map<int, Event>, all: seq<Event>, visible: seq<Event>)
    requires forall ev :: ev in all <==> ev in events.Values
    requires forall i, j :: 0 <= i < j < |all| ==> all[i].id != all[j].id
    requires forall ev :: ev in visible <==> ev in events.Values && ev.visible == 1
    requires forall i, j :: 0 <= i < j < |visible| ==> visible[i].id != visible[j].id
    ensures |all| - |visible| == |set ev | ev in events.Values && ev.visible != 1|
  {
    DistinctEventsCount(all);
    DistinctEventsCount(visible);
    var allSet := set ev | ev in all;
    var visSet := set ev | ev in visible;
    var hidden := set ev | ev in events.Values && ev.visible != 1;
    assert allSet == visSet + hidden;
    assert visSet * hidden == {};
  }

  lemma {:induction false} DistinctEventsCount(rows: seq<Event>)
    requires forall i, j :: 0 <= i < j < |rows| ==> rows[i].id != rows[j].id
    ensures |set ev | ev in rows| == |rows|
    decreases |rows|
  {
    if rows != [] {
      var tail := rows[1..];
      DistinctEventsCount(tail);
      assert (set ev | ev in rows) == (set ev | ev in tail) + {rows[0]};
      assert rows[0] !in tail;
    }
  }

  /** The sweep compares timestamps as day-first text, not as instants: a pending
      booking made at noon on 28 February is still held after a sweep whose cutoff
      is midnight on 1 March, and one made one minute after that midnight is
      released by a cutoff of 23:57 on 28 February. */
  lemma SweepComparesText(b: Booking)
    requires b.status == PENDING
    ensures b.createdAt == "28-02-2026 12:00:00" ==> !Expired(b, "01-03-2026 00:00:00")
    ensures b.createdAt == "01-03-2026 00:01:00" ==> Expired(b, "28-02-2026 23:57:00")
  {
  }
}
