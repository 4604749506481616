/** The comma-joined seat list stored in a booking: Python's `s.split(',')`,
    `','.join(xs)`, and the SQL seat count `LENGTH(s) - LENGTH(REPLACE(s, ',', '')) + 1`. */
module SeatList {

  /** `s.split(',')`: the pieces between commas. Never empty ("" gives [""]),
      and no piece contains a comma. */
  function Split(s: string): (r: seq<string>)
    ensures |r| >= 1
    ensures forall i :: 0 <= i < |r| ==> ',' !in r[i]
    decreases |s|
  {
    if s == [] then [""]
    else
      var rest := Split(s[1..]);
      if s[0] == ',' then [""] + rest
      else [[s[0]] + rest[0]] + rest[1..]
  }

  /** There is one piece more than there are commas. */
  lemma {:induction false} SplitCountsCommas(s: string)
    ensures |Split(s)| == multiset(s)[','] + 1
    decreases |s|
  {
    if s != [] {
      SplitCountsCommas(s[1..]);
      assert s == [s[0]] + s[1..];
    }
  }

  /** `','.join(xs)`: the empty list gives "", and otherwise the text is at least
      as long as its pieces and separators together. */
  function Join(xs: seq<string>): (r: string)
    ensures |xs| == 0 ==> r == ""
    ensures |xs| >= 1 ==> |r| >= |xs| - 1 + |xs[0]|
  {
    if |xs| == 0 then ""
    else if |xs| == 1 then xs[0]
    else xs[0] + "," + Join(xs[1..])
  }

  /** Comma-free pieces are separated by exactly one comma each. */
  lemma {:induction false} JoinCountsCommas(xs: seq<string>)
    requires |xs| >= 1
    requires forall i :: 0 <= i < |xs| ==> ',' !in xs[i]
    ensures multiset(Join(xs))[','] == |xs| - 1
    decreases |xs|
  {
    if |xs| > 1 {
      JoinCountsCommas(xs[1..]);
      assert ',' !in xs[0];
    }
  }

  /** SQLite `REPLACE(s, ',', '')`. */
  function RemoveCommas(s: string): (r: string)
    ensures multiset(r) == multiset(s)[',' := 0]
  {
    if s == [] then ""
    else
      assert s == [s[0]] + s[1..];
      (if s[0] == ',' then "" else [s[0]]) + RemoveCommas(s[1..])
  }

  /** The per-booking seat count that get_event_stats sums: one more than the
      number of commas. */
  function SeatCount(seats: string): (r: int)
    ensures r == multiset(seats)[','] + 1
  {
    var m := multiset(seats);
    assert |m| == |m[',' := 0]| + m[','];
    |seats| - |RemoveCommas(seats)| + 1
  }

  /** The SQL count is the number of pieces `split(',')` yields. */
  lemma SeatCountIsPieces(seats: string)
    ensures SeatCount(seats) == |Split(seats)| >= 1
  {
    SplitCountsCommas(seats);
  }

  /** A text without commas splits into itself. */
  lemma {:induction false} SplitNoComma(a: string)
    requires ',' !in a
    ensures Split(a) == [a]
    decreases |a|
  {
    if a != [] {
      SplitNoComma(a[1..]);
      assert a == [a[0]] + a[1..];
    }
  }

  /** Splitting `a + "," + t` for a comma-free `a` peels off `a`. */
  lemma {:induction false} SplitAfterPiece(a: string, t: string)
    requires ',' !in a
    ensures Split(a + "," + t) == [a] + Split(t)
    decreases |a|
  {
    var s := a + "," + t;
    if a == [] {
      assert s[1..] == t;
    } else {
      assert s[1..] == a[1..] + "," + t;
      SplitAfterPiece(a[1..], t);
      assert [a[0]] + a[1..] == a;
    }
  }

  /** Round trip: a non-empty selection of comma-free seat ids survives
      `','.join(...)` followed by `.split(',')`. */
  lemma {:induction false} SplitJoin(xs: seq<string>)
    requires |xs| >= 1
    requires forall i :: 0 <= i < |xs| ==> ',' !in xs[i]
    ensures Split(Join(xs)) == xs
    decreases |xs|
  {
    if |xs| == 1 {
      SplitNoComma(xs[0]);
    } else {
      SplitJoin(xs[1..]);
      SplitAfterPiece(xs[0], Join(xs[1..]));
      assert [xs[0]] + xs[1..] == xs;
    }
  }

  /** Joining after an empty first piece puts a comma in front. */
  lemma JoinEmptyFirst(rest: seq<string>)
    requires |rest| >= 1
    ensures Join([""] + rest) == "," + Join(rest)
  {
    assert ([""] + rest)[1..] == rest;
  }

  /** Joining after extending the first piece extends the text the same way. */
  lemma JoinExtendFirst(c: char, rest: seq<string>)
    requires |rest| >= 1
    ensures Join([[c] + rest[0]] + rest[1..]) == [c] + Join(rest)
  {
    var r := [[c] + rest[0]] + rest[1..];
    if |rest| > 1 {
      assert r[1..] == rest[1..];
    }
  }

  /** The other direction holds for every text. */
  lemma {:induction false} JoinSplit(s: string)
    ensures Join(Split(s)) == s
    decreases |s|
  {
    if s != [] {
      JoinSplit(s[1..]);
      var rest := Split(s[1..]);
      if s[0] == ',' {
        JoinEmptyFirst(rest);
      } else {
        JoinExtendFirst(s[0], rest);
      }
      assert s == [s[0]] + s[1..];
    }
  }

  /** The empty selection is not a round trip: it is stored as "" and reads back as [""]. */
  lemma EmptySelectionReadsBackAsOnePiece()
    ensures Split(Join([])) == [""]
  {
  }
}
