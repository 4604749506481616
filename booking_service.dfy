/** Seat availability, upload-name and form validation (booking_service.py). */
module BookingService {
  import opened Records
  import opened SeatList
  import opened Database

  // ---------------------------------------------------------------------------
  // Characters and searching

  predicate IsAsciiLetter(c: char) { 'A' <= c <= 'Z' || 'a' <= c <= 'z' }

  predicate IsDigit(c: char) { '0' <= c <= '9' }

  /** `[A-Za-z0-9._%+-]`, the characters before the '@'. */
  predicate IsLocalChar(c: char) {
    IsAsciiLetter(c) || IsDigit(c) || c == '.' || c == '_' || c == '%' || c == '+' || c == '-'
  }

  /** `[A-Za-z0-9.-]`, the characters of the domain before its last dot. */
  predicate IsDomainChar(c: char) {
    IsAsciiLetter(c) || IsDigit(c) || c == '.' || c == '-'
  }

  /** Every character of `s` is in the class `p` (a regular-expression `[...]*`). */
  predicate Every(s: string, p: char -> bool)
    decreases |s|
  {
    s == [] || (p(s[0]) && Every(s[1..], p))
  }

  lemma {:induction false} EveryChar(s: string, p: char -> bool)
    ensures Every(s, p) <==> forall i :: 0 <= i < |s| ==> p(s[i])
    decreases |s|
  {
    if s != [] {
      EveryChar(s[1..], p);
      assert forall i :: 1 <= i < |s| ==> s[i] == s[1..][i - 1];
    }
  }

  predicate AllLocal(s: string) { Every(s, IsLocalChar) }

  predicate AllDomain(s: string) { Every(s, IsDomainChar) }

  predicate AllLetters(s: string) { Every(s, IsAsciiLetter) }

  /** The position of the first `c` in `s`, if any. */
  function IndexOf(s: string, c: char): (r: Option<nat>)
    ensures r.Some? ==> r.value < |s| && s[r.value] == c
    decreases |s|
  {
    if s == [] then None
    else if s[0] == c then Some(0)
    else
      var r := IndexOf(s[1..], c);
      if r.None? then None else Some(r.value + 1)
  }

  /** IndexOf finds nothing only when there is nothing to find, and nothing before
      the position it finds. */
  lemma {:induction false} IndexOfIsFirst(s: string, c: char)
    ensures IndexOf(s, c).None? ==> c !in s
    ensures IndexOf(s, c).Some? ==> c !in s[..IndexOf(s, c).value]
    decreases |s|
  {
    if s != [] && s[0] != c {
      IndexOfIsFirst(s[1..], c);
      assert s == [s[0]] + s[1..];
      var r := IndexOf(s[1..], c);
      if r.Some? {
        assert s[..r.value + 1] == [s[0]] + s[1..][..r.value];
      }
    }
  }

  /** The position of the last `c` in `s`, if any (what `rsplit(c, 1)` splits at). */
  function LastIndexOf(s: string, c: char): (r: Option<nat>)
    ensures r.Some? ==> r.value < |s| && s[r.value] == c
    decreases |s|
  {
    if s == [] then None
    else if s[|s| - 1] == c then Some(|s| - 1)
    else LastIndexOf(s[..|s| - 1], c)
  }

  /** LastIndexOf finds nothing only when there is nothing to find, and nothing
      after the position it finds. */
  lemma {:induction false} LastIndexOfIsLast(s: string, c: char)
    ensures LastIndexOf(s, c).None? ==> c !in s
    ensures LastIndexOf(s, c).Some? ==> c !in s[LastIndexOf(s, c).value + 1..]
    decreases |s|
  {
    if s != [] && s[|s| - 1] != c {
      var init := s[..|s| - 1];
      LastIndexOfIsLast(init, c);
      assert s == init + [s[|s| - 1]];
      var r := LastIndexOf(init, c);
      if r.Some? {
        assert s[r.value + 1..] == init[r.value + 1..] + [s[|s| - 1]];
      }
    }
  }

  lemma FirstIndexIsUnique(s: string, c: char, i: nat)
    requires i < |s| && s[i] == c && c !in s[..i]
    ensures IndexOf(s, c) == Some(i)
  {
    IndexOfIsFirst(s, c);
    assert c in s;
  }

  lemma LastIndexIsUnique(s: string, c: char, i: nat)
    requires i < |s| && s[i] == c && c !in s[i + 1..]
    ensures LastIndexOf(s, c) == Some(i)
  {
    LastIndexOfIsLast(s, c);
    assert c in s;
  }

  // ---------------------------------------------------------------------------
  // allowed_file

  /** config.ALLOWED_EXTENSIONS. */
  const ALLOWED_EXTENSIONS: set<string> := {"png", "jpg", "jpeg", "gif"}

  function LowerChar(c: char): char {
    if 'A' <= c <= 'Z' then (c as int + 32) as char else c
  }

  /** `str.lower()` on the letters A-Z; every other character is kept. */
  function Lower(s: string): (r: string)
    ensures |r| == |s|
    ensures forall i :: 0 <= i < |r| ==> !('A' <= r[i] <= 'Z')
    ensures forall i :: 0 <= i < |s| && !('A' <= s[i] <= 'Z') ==> r[i] == s[i]
    ensures forall i :: 0 <= i < |s| && 'A' <= s[i] <= 'Z' ==>
              r[i] == (s[i] as int - 'A' as int + 'a' as int) as char
  {
    seq(|s|, i requires 0 <= i < |s| => LowerChar(s[i]))
  }

  /** Lower-casing twice is lower-casing once. */
  lemma LowerIdempotent(s: string)
    ensures Lower(Lower(s)) == Lower(s)
  {
  }

  /** allowed_file: the name has a '.', and the text after the last one, lower-cased,
      is a whitelisted extension. */
  function AllowedFile(filename: string): (r: bool)
    ensures r <==> exists i :: LastDotAt(filename, i) && Lower(filename[i + 1..]) in ALLOWED_EXTENSIONS
  {
    LastDotFound(filename);
    match LastIndexOf(filename, '.')
    case None => false
    case Some(i) =>
      Lower(filename[i + 1..]) in ALLOWED_EXTENSIONS
  }

  /** `i` is the position of the last dot of `filename`. */
  predicate LastDotAt(filename: string, i: int) {
    0 <= i < |filename| && filename[i] == '.' && '.' !in filename[i + 1..]
  }

  /** The last dot of a name is exactly what LastIndexOf finds. */
  lemma LastDotFound(filename: string)
    ensures forall i :: LastDotAt(filename, i) ==> LastIndexOf(filename, '.') == Some(i)
    ensures LastIndexOf(filename, '.').None? ==> '.' !in filename
    ensures LastIndexOf(filename, '.').Some? ==> LastDotAt(filename, LastIndexOf(filename, '.').value)
  {
    LastIndexOfIsLast(filename, '.');
    forall i | LastDotAt(filename, i)
      ensures LastIndexOf(filename, '.') == Some(i)
    {
      LastIndexIsUnique(filename, '.', i);
    }
  }

  /** Only the last extension counts, and its case does not. */
  lemma AllowedFileExamples()
    ensures AllowedFile("poster.PNG")
    ensures AllowedFile("a.b.jpeg")
  {
    assert LastDotAt("poster.PNG", 6);
    assert Lower("PNG") == "png";
    assert LastDotAt("a.b.jpeg", 3);
    assert Lower("jpeg") == "jpeg";
  }

  /** A whitelisted extension followed by another one, or a name without a dot, is refused. */
  lemma RefusedFileExamples()
    ensures !AllowedFile("poster.png.exe")
    ensures !AllowedFile("png")
  {
    assert LastDotAt("poster.png.exe", 10);
    assert Lower("exe") == "exe";
  }

  // ---------------------------------------------------------------------------
  // validate_email

  /** The email regular expression split at the '@' (position `at`) and at the dot
      before the top-level domain (position `dot`):
      `[A-Za-z0-9._%+-]+ @ [A-Za-z0-9.-]+ \. [A-Za-z]{2,}`. */
  predicate AddressAt(w: string, at: int, dot: int) {
    && 1 <= at && at + 2 <= dot && dot + 3 <= |w|
    && w[at] == '@' && w[dot] == '.'
    && AllLocal(w[..at]) && AllDomain(w[at + 1..dot]) && AllLetters(w[dot + 1..])
  }

  /** The whole of `w` is matched by the email pattern. */
  ghost predicate IsAddress(w: string) {
    exists at, dot :: AddressAt(w, at, dot)
  }

  /** Decides the pattern: the first '@' must end the local part, and the last dot
      after it must start the top-level domain. */
  function AddressShape(w: string): bool
  {
    var at := IndexOf(w, '@');
    at.Some? &&
    var dot := LastIndexOf(w[at.value + 1..], '.');
    dot.Some? && AddressAt(w, at.value, at.value + 1 + dot.value)
  }

  lemma AddressShapeSound(w: string)
    requires AddressShape(w)
    ensures IsAddress(w)
  {
    var at := IndexOf(w, '@').value;
    var d := LastIndexOf(w[at + 1..], '.').value;
    assert AddressAt(w, at, at + 1 + d);
  }

  /** A matched text's first '@' and its last dot are the ones the pattern splits at. */
  lemma AddressSplitPoints(w: string, at: int, dot: int)
    requires AddressAt(w, at, dot)
    ensures IndexOf(w, '@') == Some(at)
    ensures LastIndexOf(w[at + 1..], '.') == Some(dot - at - 1)
  {
    var local := w[..at];
    EveryChar(local, IsLocalChar);
    EveryChar(w[dot + 1..], IsAsciiLetter);
    assert '@' !in local by {
      forall i | 0 <= i < |local| ensures local[i] != '@' {
        assert IsLocalChar(local[i]);
      }
    }
    FirstIndexIsUnique(w, '@', at);
    var rest := w[at + 1..];
    var tld := w[dot + 1..];
    assert rest[dot - at..] == tld;
    assert '.' !in tld by {
      forall i | 0 <= i < |tld| ensures tld[i] != '.' {
        assert IsAsciiLetter(tld[i]);
      }
    }
    LastIndexIsUnique(rest, '.', dot - at - 1);
  }

  lemma AddressShapeComplete(w: string, at: int, dot: int)
    requires AddressAt(w, at, dot)
    ensures AddressShape(w)
  {
    AddressSplitPoints(w, at, dot);
    var first := IndexOf(w, '@');
    var last := LastIndexOf(w[at + 1..], '.');
    assert first.Some? && first.value == at;
    assert last.Some? && at + 1 + last.value == dot;
  }

  lemma AddressShapeDecidesPattern(w: string)
    ensures AddressShape(w) <==> IsAddress(w)
  {
    if AddressShape(w) {
      AddressShapeSound(w);
    }
    if IsAddress(w) {
      var at, dot :| AddressAt(w, at, dot);
      AddressShapeComplete(w, at, dot);
    }
  }

  /** Every text the pattern matches ends with a letter of the top-level domain. */
  lemma AddressEndsWithLetter(w: string)
    ensures IsAddress(w) ==> |w| > 0 && IsAsciiLetter(w[|w| - 1])
  {
    if IsAddress(w) {
      var at, dot :| AddressAt(w, at, dot);
      EveryChar(w[dot + 1..], IsAsciiLetter);
      assert w[dot + 1..][|w| - dot - 2] == w[|w| - 1];
    }
  }

  /** validate_email: `re.match` anchored by `^...$`, where `$` also matches just
      before one final newline. */
  function ValidateEmail(email: string): (r: bool)
    ensures r <==>
            IsAddress(email)
            || (|email| > 0 && email[|email| - 1] == '\n' && IsAddress(email[..|email| - 1]))
  {
    AddressEndsWithLetter(email);
    if |email| > 0 && email[|email| - 1] == '\n' then
      AddressShapeDecidesPattern(email[..|email| - 1]);
      AddressShape(email[..|email| - 1])
    else
      AddressShapeDecidesPattern(email);
      AddressShape(email)
  }

  /** A plain address is accepted. */
  lemma ValidateEmailExamples()
    ensures ValidateEmail("mario@test.com")
  {
    var w := "mario@test.com";
    ExampleAddress();
    AddressShapeComplete(w, 5, 10);
    assert w[|w| - 1] == 'm';
  }

  /** With one newline appended, a text is accepted iff the text itself matches. */
  lemma NewlineIgnored(w: string)
    ensures ValidateEmail(w + "\n") <==> AddressShape(w)
  {
    var v := w + "\n";
    assert v[..|v| - 1] == w;
  }

  /** One trailing newline is accepted too, because `$` matches before it. */
  lemma ValidateEmailTrailingNewline()
    ensures ValidateEmail("mario@test.com" + "\n")
  {
    ExampleAddress();
    AddressShapeComplete("mario@test.com", 5, 10);
    NewlineIgnored("mario@test.com");
  }

  lemma ExampleAddress()
    ensures AddressAt("mario@test.com", 5, 10)
  {
    var w := "mario@test.com";
    assert w[..5] == "mario" && w[6..10] == "test" && w[11..] == "com";
    assert AllLocal("mario");
    assert AllDomain("test");
    assert AllLetters("com");
  }

  // ---------------------------------------------------------------------------
  // validate_booking_form, validate_admin_booking_form

  /** The reasons a form is refused, each shown with a fixed message. */
  datatype FormError =
    | NoSeatSelected
    | MissingNameOrEmail
    | InvalidEmail
    | SeatUnavailable
    | MissingCustomerName

  /** The text each validator returns, and the handler flashes, for a refusal. */
  function Message(e: FormError): string
  {
    match e
    case NoSeatSelected => "Seleziona almeno un posto!"
    case MissingNameOrEmail => "Inserisci nome ed email!"
    case InvalidEmail => "Inserisci un indirizzo email valido!"
    case SeatUnavailable => "Alcuni posti selezionati non sono più disponibili."
    case MissingCustomerName => "Inserisci il nome del cliente!"
  }

  /** A form field as `request.form.get` gives it is falsy when absent or empty. */
  predicate Blank(field: Option<string>) {
    field.None? || field.value == ""
  }

  /** `any(seat in booked or seat in unavailable for seat in selected)`. */
  function AnyUnavailable(selected: seq<string>, booked: set<string>, unavailable: set<string>): (r: bool)
    ensures r <==> exists s :: s in selected && (s in booked || s in unavailable)
    decreases |selected|
  {
    if selected == [] then false
    else
      assert forall s :: s in selected <==> s == selected[0] || s in selected[1..];
      selected[0] in booked || selected[0] in unavailable
      || AnyUnavailable(selected[1..], booked, unavailable)
  }

  /** validate_booking_form: None when the form is accepted, otherwise the first
      failing check of: a seat is selected; name and email are given; the email is
      well formed; no selected seat is booked or unavailable. */
  function ValidateBookingForm(name: Option<string>, email: Option<string>, selected: seq<string>,
                               booked: set<string>, unavailable: set<string>): (r: Option<FormError>)
    ensures r == Some(NoSeatSelected) <==> selected == []
    ensures r == Some(MissingNameOrEmail) <==> selected != [] && (Blank(name) || Blank(email))
    ensures r == Some(InvalidEmail) <==>
            selected != [] && !Blank(name) && !Blank(email) && !ValidateEmail(email.value)
    ensures r == Some(SeatUnavailable) <==>
            && selected != [] && !Blank(name) && !Blank(email) && ValidateEmail(email.value)
            && exists s :: s in selected && (s in booked || s in unavailable)
    ensures r == None <==>
            && selected != [] && !Blank(name) && !Blank(email) && ValidateEmail(email.value)
            && forall s :: s in selected ==> s !in booked && s !in unavailable
    ensures r != Some(MissingCustomerName)
  {
    if selected == [] then Some(NoSeatSelected)
    else if Blank(name) || Blank(email) then Some(MissingNameOrEmail)
    else if !ValidateEmail(email.value) then Some(InvalidEmail)
    else if AnyUnavailable(selected, booked, unavailable) then Some(SeatUnavailable)
    else None
  }

  /** validate_admin_booking_form: the same checks with the email ones removed. */
  function ValidateAdminBookingForm(name: Option<string>, selected: seq<string>,
                                    booked: set<string>, unavailable: set<string>): (r: Option<FormError>)
    ensures r == Some(NoSeatSelected) <==> selected == []
    ensures r == Some(MissingCustomerName) <==> selected != [] && Blank(name)
    ensures r == Some(SeatUnavailable) <==>
            selected != [] && !Blank(name) && exists s :: s in selected && (s in booked || s in unavailable)
    ensures r == None <==>
            selected != [] && !Blank(name) && forall s :: s in selected ==> s !in booked && s !in unavailable
    ensures r != Some(MissingNameOrEmail) && r != Some(InvalidEmail)
  {
    if selected == [] then Some(NoSeatSelected)
    else if Blank(name) then Some(MissingCustomerName)
    else if AnyUnavailable(selected, booked, unavailable) then Some(SeatUnavailable)
    else None
  }

  /** The admin form accepts exactly what the user form accepts once a well-formed
      email is supplied, and it accepts a missing or empty email too. */
  lemma AdminFormDropsEmailChecks(name: Option<string>, email: Option<string>, selected: seq<string>,
                                  booked: set<string>, unavailable: set<string>)
    ensures !Blank(email) && ValidateEmail(email.value) ==>
            (ValidateBookingForm(name, email, selected, booked, unavailable) == None
             <==> ValidateAdminBookingForm(name, selected, booked, unavailable) == None)
    ensures ValidateBookingForm(name, email, selected, booked, unavailable) == None ==>
            ValidateAdminBookingForm(name, selected, booked, unavailable) == None
  {
  }

  // ---------------------------------------------------------------------------
  // get_booked_seats, check_seats_available

  /** The set of seat ids in one stored seat list. */
  function Pieces(seats: string): set<string>
  {
    set s | s in Split(seats)
  }

  /** The union of the seat lists of `rows`, accumulated front to back. */
  ghost function SeatsOfRows(rows: seq<Booking>): set<string>
  {
    if rows == [] then {}
    else SeatsOfRows(rows[..|rows| - 1]) + Pieces(rows[|rows| - 1].seats)
  }

  lemma {:induction false} SeatsOfRowsMembers(rows: seq<Booking>)
    ensures forall s :: s in SeatsOfRows(rows) <==> exists b :: b in rows && s in Split(b.seats)
    decreases |rows|
  {
    if rows != [] {
      var init := rows[..|rows| - 1];
      SeatsOfRowsMembers(init);
      assert rows == init + [rows[|rows| - 1]];
      assert forall b :: b in rows <==> b in init || b == rows[|rows| - 1];
    }
  }

  /** get_booked_seats: the union of the seat lists of the event's bookings in
      status 1, 2 or 3. */
  method GetBookedSeats(db: Store, eventId: int) returns (booked: set<string>)
    requires db.Valid()
    ensures booked == HeldSeats(db.bookings, eventId)
  {
    var rows := db.BookingsByEvent(eventId, [PENDING, PAID, VALIDATED]);
    booked := {};
    for n := 0 to |rows|
      invariant booked == SeatsOfRows(rows[..n])
    {
      assert rows[..n + 1][..n] == rows[..n];
      booked := booked + Pieces(rows[n].seats);
    }
    assert rows[..|rows|] == rows;
    SeatsOfRowsMembers(rows);
    forall b ensures b in rows <==> b in db.bookings.Values && b.eventId == eventId && IsHeld(b) {
      assert b.status in [PENDING, PAID, VALIDATED] <==> IsHeld(b);
    }
  }

  /** check_seats_available: every seat of `seats` is outside the held set
      (in particular, true when `seats` is empty). The unavailable seats are not
      consulted here. */
  method CheckSeatsAvailable(db: Store, eventId: int, seats: seq<string>) returns (ok: bool)
    requires db.Valid()
    ensures ok <==> forall s :: s in seats ==> s !in HeldSeats(db.bookings, eventId)
    ensures seats == [] ==> ok
  {
    var booked := GetBookedSeats(db, eventId);
    ok := true;
    var n := 0;
    while n < |seats| && ok
      invariant 0 <= n <= |seats|
      invariant ok <==> forall i :: 0 <= i < n ==> seats[i] !in booked
    {
      ok := seats[n] !in booked;
      n := n + 1;
    }
  }
}
