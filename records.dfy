/** Record shapes of the two tables (db_init.py) and the order SQLite uses on TEXT. */
module Records {

  datatype Option<+T> = None | Some(value: T)

  /** Booking status codes: 0 released, 1 pending, 2 paid, 3 validated / cash. */
  const RELEASED := 0
  const PENDING := 1
  const PAID := 2
  const VALIDATED := 3

  /** A row of the bookings table; `seats` is the comma-joined list of seat ids
      and `createdAt` the timestamp text written as "%d-%m-%Y %H:%M:%S". */
  datatype Booking = Booking(
    id: int,
    eventId: int,
    name: string,
    email: string,
    seats: string,
    status: int,
    createdAt: string)

  /** A row of the events table. The price column is REAL; it is only carried along. */
  datatype Event = Event(
    id: int,
    title: string,
    date: string,
    time: string,
    price: real,
    posterUrl: Option<string>,
    visible: int)

  /** A booking holds its seats while it is pending, paid or validated. */
  predicate IsHeld(b: Booking) {
    b.status == PENDING || b.status == PAID || b.status == VALIDATED
  }

  /** The status domain 0..3 of the bookings table. */
  predicate StatusInDomain(b: Booking) {
    RELEASED <= b.status <= VALIDATED
  }

  /** `a <= b` between two TEXT values under SQLite's default BINARY collation:
      lexicographic by character code, a proper prefix sorting first. */
  predicate TextLe(a: string, b: string)
    ensures a <= b ==> TextLe(a, b)
    ensures TextLe(a, b) && a != [] ==> b != [] && a[0] <= b[0]
    decreases |a|
  {
    a == [] || (b != [] && (a[0] < b[0] || (a[0] == b[0] && TextLe(a[1..], b[1..]))))
  }

  /** At the first position where `a` and `b` differ, `a` has the smaller character. */
  ghost predicate SmallerAtFirstDifference(a: string, b: string) {
    exists k :: 0 <= k < |a| && k < |b| && a[..k] == b[..k] && a[k] < b[k]
  }

  /** Dropping a common first character keeps the first difference. */
  lemma DropCommonFirst(a: string, b: string)
    requires a != [] && b != [] && a[0] == b[0]
    ensures SmallerAtFirstDifference(a, b) <==> SmallerAtFirstDifference(a[1..], b[1..])
  {
    if SmallerAtFirstDifference(a[1..], b[1..]) {
      var k :| 0 <= k < |a| - 1 && k < |b| - 1 && a[1..][..k] == b[1..][..k] && a[1..][k] < b[1..][k];
      assert a[..k + 1] == [a[0]] + a[1..][..k];
      assert b[..k + 1] == [b[0]] + b[1..][..k];
    }
    if SmallerAtFirstDifference(a, b) {
      var k :| 0 <= k < |a| && k < |b| && a[..k] == b[..k] && a[k] < b[k];
      assert a[1..][..k - 1] == a[..k][1..];
      assert b[1..][..k - 1] == b[..k][1..];
    }
  }

  /** Dropping a common first character keeps the prefix relation. */
  lemma DropCommonFirstPrefix(a: string, b: string)
    requires a != [] && b != [] && a[0] == b[0]
    ensures a <= b <==> a[1..] <= b[1..]
  {
    if a[1..] <= b[1..] {
      assert a == [a[0]] + a[1..];
      assert b == [b[0]] + b[1..];
    }
  }

  /** TextLe is the lexicographic order: `a` is a prefix of `b`, or at the first
      position where they differ `a` has the smaller character. */
  lemma {:induction false} TextLeLexicographic(a: string, b: string)
    ensures TextLe(a, b) <==> a <= b || SmallerAtFirstDifference(a, b)
    decreases |a|
  {
    if a != [] && b != [] && a[0] == b[0] {
      TextLeLexicographic(a[1..], b[1..]);
      DropCommonFirst(a, b);
      DropCommonFirstPrefix(a, b);
    } else if a != [] && b != [] && a[0] < b[0] {
      assert a[..0] == b[..0];
    }
  }

  lemma {:induction false} TextLeReflexive(a: string)
    ensures TextLe(a, a)
    decreases |a|
  {
    if a != [] {
      TextLeReflexive(a[1..]);
    }
  }

  lemma {:induction false} TextLeTotal(a: string, b: string)
    ensures TextLe(a, b) || TextLe(b, a)
    decreases |a|
  {
    if a != [] && b != [] && a[0] == b[0] {
      TextLeTotal(a[1..], b[1..]);
    }
  }

  lemma {:induction false} TextLeTransitive(a: string, b: string, c: string)
    requires TextLe(a, b) && TextLe(b, c)
    ensures TextLe(a, c)
    decreases |a|
  {
    if a != [] && b != [] && c != [] && a[0] == b[0] && b[0] == c[0] {
      TextLeTransitive(a[1..], b[1..], c[1..]);
    }
  }

  lemma {:induction false} TextLeAntisymmetric(a: string, b: string)
    requires TextLe(a, b) && TextLe(b, a)
    ensures a == b
    decreases |a|
  {
    if a != [] {
      TextLeAntisymmetric(a[1..], b[1..]);
      assert a == [a[0]] + a[1..];
      assert b == [b[0]] + b[1..];
    }
  }
}
