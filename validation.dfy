/** The input checks of validation.py: the movie line, the ticket count, a
    seat label typed by the user, and a booking ID. Each returns its verdict
    as a value; the log messages are not modelled. */
module Validation {
  import opened Wrappers
  import opened Text
  import opened Seats
  import opened MovieClasses
  import opened Grid
  import opened MovieOps
  import opened DefaultSeating
  import opened AdvancedSeating

  /** `is_positive_integer(value)` for a string: it reads as a number above zero. */
  predicate IsPositiveInteger(value: string) {
    var n := ParseDecimal(value);
    n.Some? && n.value > 0
  }

  /** A numeral, with or without leading zeros, passes exactly when its number is positive. */
  lemma PositiveIntegerOfNumeral(n: nat, width: nat)
    ensures IsPositiveInteger(ZeroPadded(DecimalString(n), width)) <==> n > 0
  {
    ZeroPaddedRoundTrip(n, width);
  }

  /** `movie_validation(user_input)`: at least three words, a title, and the
      last two words positive numbers with at most 26 rows of at most 50 seats. */
  predicate MovieValidation(input: string) {
    MovieWordsValid(Split(Strip(input)))
  }

  /** The checks of `movie_validation` on the words of the line. */
  predicate MovieWordsValid(parts: seq<string>) {
    if |parts| < 3 then false
    else
      var title := JoinSpaced(parts[..|parts| - 2]);
      var row := parts[|parts| - 2];
      var seatsPerRow := parts[|parts| - 1];
      if Strip(title) == [] then false
      else if !IsPositiveInteger(row) then false
      else if !IsPositiveInteger(seatsPerRow) then false
      else 1 <= ParseDecimal(row).value <= MaxRows && 1 <= ParseDecimal(seatsPerRow).value <= MaxSeatsPerRow
  }

  /** The title check never rejects: with three words or more the title has
      at least one word. */
  lemma TitleNeverBlank(parts: seq<string>)
    requires |parts| >= 3 && forall k :: 0 <= k < |parts| ==> IsWord(parts[k])
    ensures Strip(JoinSpaced(parts[..|parts| - 2])) != []
  {
    var ws := parts[..|parts| - 2];
    JoinSpacedEnds(ws);
    assert !IsSpace(JoinSpaced(ws)[0]);
  }

  /** The word checks accept exactly three words or more whose last two are
      numerals within 26 rows of 50 seats. */
  lemma MovieWordsValidMeans(parts: seq<string>)
    requires forall k :: 0 <= k < |parts| ==> IsWord(parts[k])
    ensures MovieWordsValid(parts) <==>
      |parts| >= 3 &&
      ParseDecimal(parts[|parts| - 2]).Some? && 1 <= ParseDecimal(parts[|parts| - 2]).value <= MaxRows &&
      ParseDecimal(parts[|parts| - 1]).Some? && 1 <= ParseDecimal(parts[|parts| - 1]).value <= MaxSeatsPerRow
  {
    if |parts| >= 3 {
      TitleNeverBlank(parts);
    }
  }

  /** A movie line is accepted exactly when it has at least three words,
      `create_movie` reads it, and the dimensions are within 26 rows of 50
      seats; what is accepted is then a movie with a title and no bookings. */
  lemma MovieValidationMeans(input: string)
    ensures MovieValidation(input) <==>
      |Split(Strip(input))| >= 3 && CreateMovie(input).Some? &&
      1 <= CreateMovie(input).value.rows <= MaxRows &&
      1 <= CreateMovie(input).value.seatsPerRow <= MaxSeatsPerRow
    ensures MovieValidation(input) ==>
      CreateMovie(input).value.title != [] && CreateMovie(input).value.bookings == []
  {
    var parts := Split(Strip(input));
    MovieWordsValidMeans(parts);
    assert CreateMovie(input) == MovieFromWords(parts);
    if |parts| >= 3 {
      TitleNeverBlank(parts);
    }
  }

  /** A line written as title words and two numbers is accepted exactly when
      the numbers are within bounds. */
  lemma MovieValidationRoundTrip(ws: seq<string>, rows: nat, seatsPerRow: nat)
    requires ws != [] && forall k :: 0 <= k < |ws| ==> IsWord(ws[k])
    ensures MovieValidation(JoinSpaced(ws + [DecimalString(rows), DecimalString(seatsPerRow)])) <==>
      1 <= rows <= MaxRows && 1 <= seatsPerRow <= MaxSeatsPerRow
  {
    var input := JoinSpaced(ws + [DecimalString(rows), DecimalString(seatsPerRow)]);
    CreateMovieRoundTrip(ws, rows, seatsPerRow);
    MovieValidationMeans(input);
  }

  /** `ticket_num_validation(ticket_input, movie)`: a positive number no
      larger than `movie_available_seats`. */
  predicate TicketNumValidation(input: string, m: MovieRec) {
    var n := ParseDecimal(input);
    if n.None? then false
    else if n.value <= 0 then false
    else n.value <= Available(m)
  }

  /** A typed number is accepted exactly when it is between 1 and the seat count. */
  lemma TicketNumValidationOfNumeral(n: nat, m: MovieRec)
    ensures TicketNumValidation(DecimalString(n), m) <==> 1 <= n <= Available(m)
  {
    DecimalRoundTrip(n);
  }

  /** An accepted ticket count is always seated in full, by default and by
      advanced seating alike. */
  lemma ValidatedTicketsSeated(input: string, m: MovieRec)
    requires TicketNumValidation(input, m)
    ensures var n := DecimalValue(input);
      n >= 1 && |DefaultSeats(m, n)| == n && |DefaultAdvanced(m, n)| == n
  {
    var n := DecimalValue(input);
    AvailableAtMostFree(m);
    DefaultSeatsBest(m, n);
    AdvancedServes(m, n);
  }

  /** The three answers of `is_valid_seat`. */
  datatype SeatCheck = Blank | ValidSeat | InvalidSeat

  /** `seat_map[row]` for row `r`: the labels of its seats, left to right. */
  function RowLabels(r: nat, seatsPerRow: nat): seq<string>
    requires r < MaxRows
  {
    seq(seatsPerRow, j requires 0 <= j < seatsPerRow => Label(Seat(r, j + 1)))
  }

  /** `get_booked_seats(movie)` as labels. */
  function BookedLabels(m: MovieRec): set<string> {
    set s | s in Occupied(m.bookings) && s.row < MaxRows :: Label(s)
  }

  /** `is_valid_seat(movie, user_input)`: blank input accepts the default;
      otherwise the upper-cased input is checked as a label. */
  function IsValidSeat(m: MovieRec, input: string): SeatCheck
    requires m.rows <= MaxRows
  {
    if Strip(input) == [] then Blank else LabelCheck(m, Upper(input))
  }

  /** The checks of `is_valid_seat` on the upper-cased input: a number after
      the first character, a row of the map, a seat of that row, and not a
      booked seat. */
  function LabelCheck(m: MovieRec, t: string): SeatCheck
    requires m.rows <= MaxRows && t != []
  {
    if !IsDecimal(t[1..]) then InvalidSeat
    else if !('A' <= t[0] && t[0] as int - 'A' as int < m.rows) then InvalidSeat
    else if t !in RowLabels(t[0] as int - 'A' as int, m.seatsPerRow) then InvalidSeat
    else if t in BookedLabels(m) then InvalidSeat
    else ValidSeat
  }

  /** The labels of a row of the map are exactly the labels of its seats. */
  lemma RowLabelsMeans(r: nat, seatsPerRow: nat, t: string)
    requires r < MaxRows
    ensures t in RowLabels(r, seatsPerRow) <==>
      ParseLabel(t).Some? && ParseLabel(t).value.row == r && 1 <= ParseLabel(t).value.col <= seatsPerRow
  {
    var labels := RowLabels(r, seatsPerRow);
    if t in labels {
      var j :| 0 <= j < seatsPerRow && labels[j] == t;
      ParseLabelOfLabel(Seat(r, j + 1));
    }
    if ParseLabel(t).Some? && ParseLabel(t).value.row == r && 1 <= ParseLabel(t).value.col <= seatsPerRow {
      var s := ParseLabel(t).value;
      assert labels[s.col - 1] == Label(Seat(r, s.col));
      assert s == Seat(r, s.col);
    }
  }

  /** A seat's label is among the booked labels exactly when the seat is booked. */
  lemma BookedLabelsMeans(m: MovieRec, s: Seat)
    requires s.row < MaxRows
    ensures Label(s) in BookedLabels(m) <==> s in Occupied(m.bookings)
  {
    if Label(s) in BookedLabels(m) {
      var o :| o in Occupied(m.bookings) && o.row < MaxRows && Label(o) == Label(s);
      LabelInjective(o, s);
    }
  }

  /** The label checks accept exactly the label of a free seat. */
  lemma LabelCheckMeans(m: MovieRec, t: string)
    requires m.rows <= MaxRows && t != []
    ensures LabelCheck(m, t) == ValidSeat <==> ParseLabel(t).Some? && ParseLabel(t).value in FreeSeats(m)
  {
    if LabelCheck(m, t) == ValidSeat {
      RowLabelsMeans(t[0] as int - 'A' as int, m.seatsPerRow, t);
      BookedLabelsMeans(m, ParseLabel(t).value);
    }
    if ParseLabel(t).Some? && ParseLabel(t).value in FreeSeats(m) {
      var s := ParseLabel(t).value;
      assert t[1..] == DecimalString(s.col);
      assert t[0] == RowLetter(s.row);
      RowLabelsMeans(s.row, m.seatsPerRow, t);
      BookedLabelsMeans(m, s);
    }
  }

  /** `is_valid_seat` answers blank exactly for all-whitespace input, and
      valid exactly for the label of a free seat, in either case. */
  lemma IsValidSeatMeans(m: MovieRec, input: string)
    requires m.rows <= MaxRows
    ensures IsValidSeat(m, input) == Blank <==> forall i :: 0 <= i < |input| ==> IsSpace(input[i])
    ensures IsValidSeat(m, input) == ValidSeat <==>
      ParseLabel(Upper(input)).Some? && ParseLabel(Upper(input)).value in FreeSeats(m)
  {
    var t := Upper(input);
    if ParseLabel(t).Some? {
      var s := ParseLabel(t).value;
      assert UpperChar(input[0]) == t[0] == RowLetter(s.row);
      assert !IsSpace(input[0]);
    }
    if Strip(input) != [] {
      LabelCheckMeans(m, t);
    }
  }

  /** Upper-casing a label changes nothing. */
  lemma UpperLabel(s: Seat)
    requires s.row < MaxRows
    ensures Upper(Label(s)) == Label(s)
  {
    var t := Label(s);
    assert t[1..] == DecimalString(s.col);
    forall i | 0 <= i < |t| ensures UpperChar(t[i]) == t[i] {
      if i > 0 {
        assert t[i] == t[1..][i - 1];
      }
    }
  }

  /** A seat of the grid is accepted exactly when no booked booking holds it:
      reserved seats are valid. */
  lemma SeatLabelValid(m: MovieRec, s: Seat)
    requires m.rows <= MaxRows && InGrid(s, m.rows, m.seatsPerRow)
    ensures IsValidSeat(m, Label(s)) == ValidSeat <==> s !in Occupied(m.bookings)
  {
    UpperLabel(s);
    ParseLabelOfLabel(s);
    IsValidSeatMeans(m, Label(s));
  }

  /** `is_valid_booking(movie_json, booking_id)` as written: anything but a
      dictionary with a `"bookings"` key is rejected before the search. */
  function IsValidBookingAsWritten(movie: MovieArg, id: string): bool {
    match movie
    case MovieDict(Some(bs)) => FindFirst(bs, id).Some?
    case _ => false
  }

  /** The bookings of the movie, whichever form it is handed in; a
      dictionary without `"bookings"` has none. */
  function Ledger(movie: MovieArg): seq<BookingRec> {
    match movie
    case MovieDict(Some(bs)) => bs
    case MovieDict(None) => []
    case MovieObject(m) => m.bookings
  }

  /** `is_valid_booking` as its documentation describes it: the ID is in the
      movie's bookings, whether the movie comes as a dictionary or an object. */
  function IsValidBooking(movie: MovieArg, id: string): bool {
    FindFirst(Ledger(movie), id).Some?
  }

  /** The corrected check accepts exactly the IDs some booking carries, and
      agrees with the code as written on every dictionary. */
  lemma IsValidBookingMeans(movie: MovieArg, id: string)
    ensures IsValidBooking(movie, id) <==> exists k :: 0 <= k < |Ledger(movie)| && Ledger(movie)[k].id == id
    ensures movie.MovieDict? ==> IsValidBookingAsWritten(movie, id) == IsValidBooking(movie, id)
  {
    var bs := Ledger(movie);
    if k :| 0 <= k < |bs| && bs[k].id == id {
      assert FindFirst(bs, id).Some?;
    }
  }

  /** The check-booking menu hands `is_valid_booking` the `Movie` object, so
      as written it rejects an ID the ledger holds. */
  lemma ValidBookingRejectedAsWritten()
    ensures var m := MovieRec("Inception", 8, 8, [BookingRec("GIC0001", Booked, [Seat(0, 1), Seat(0, 2)])]);
      !IsValidBookingAsWritten(MovieObject(m), "GIC0001") && IsValidBooking(MovieObject(m), "GIC0001")
  {
    var m := MovieRec("Inception", 8, 8, [BookingRec("GIC0001", Booked, [Seat(0, 1), Seat(0, 2)])]);
    assert Ledger(MovieObject(m))[0].id == "GIC0001";
  }
}
