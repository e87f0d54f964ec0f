/** Movie creation from the "title rows seats" line, the seat count the ticket
    prompt checks against, and the character map the seating chart is drawn
    from (`create_movie`, `movie_available_seats`, `mark_seats_on_map` and
    `build_seat_display_map` in movie.py). */
module MovieOps {
  import opened Wrappers
  import opened Seqs
  import opened Text
  import opened Seats
  import opened MovieClasses
  import opened Grid

  /** `create_movie(user_input)`: the title is every word but the last two,
      joined by single spaces; the last two words are the number of rows and
      the seats per row. `None` where the source raises: fewer than two words,
      or a count that is not a numeral. */
  function CreateMovie(input: string): Option<MovieRec>
  {
    MovieFromWords(Split(Strip(input)))
  }

  /** `create_movie` on the words of the line. */
  function MovieFromWords(parts: seq<string>): Option<MovieRec>
  {
    if |parts| < 2 then None
    else
      var row := ParseDecimal(parts[|parts| - 2]);
      var seatsPerRow := ParseDecimal(parts[|parts| - 1]);
      if row.None? || seatsPerRow.None? then None
      else Some(MovieRec(JoinSpaced(parts[..|parts| - 2]), row.value, seatsPerRow.value, []))
  }

  /** Stripping the single-spaced join of words and splitting it again gives
      the words back. */
  lemma StripSplitJoin(ws: seq<string>)
    requires forall k :: 0 <= k < |ws| ==> IsWord(ws[k])
    ensures Split(Strip(JoinSpaced(ws))) == ws
  {
    if ws != [] {
      JoinSpacedEnds(ws);
    }
    StripNoop(JoinSpaced(ws));
    SplitJoin(ws);
  }

  /** A movie line written as title words followed by the two numbers reads
      back as that title, those dimensions and an empty ledger. */
  lemma CreateMovieRoundTrip(ws: seq<string>, rows: nat, seatsPerRow: nat)
    requires forall k :: 0 <= k < |ws| ==> IsWord(ws[k])
    ensures Split(Strip(JoinSpaced(ws + [DecimalString(rows), DecimalString(seatsPerRow)]))) ==
      ws + [DecimalString(rows), DecimalString(seatsPerRow)]
    ensures CreateMovie(JoinSpaced(ws + [DecimalString(rows), DecimalString(seatsPerRow)])) ==
      Some(MovieRec(JoinSpaced(ws), rows, seatsPerRow, []))
  {
    var all := ws + [DecimalString(rows), DecimalString(seatsPerRow)];
    DecimalIsWord(DecimalString(rows));
    DecimalIsWord(DecimalString(seatsPerRow));
    StripSplitJoin(all);
    assert all[..|all| - 2] == ws;
    DecimalRoundTrip(rows);
    DecimalRoundTrip(seatsPerRow);
  }

  /** Fewer than two words is an error of `create_movie`. */
  lemma CreateMovieShort(input: string)
    requires |Split(Strip(input))| < 2
    ensures CreateMovie(input).None?
  {
  }

  /** The number of seats listed by the bookings, whatever their status. */
  function SeatCount(bs: seq<BookingRec>): nat {
    if bs == [] then 0 else |bs[0].seats| + SeatCount(bs[1..])
  }

  /** `movie_available_seats`: the grid size less every seat any booking lists. */
  function Available(m: MovieRec): int {
    m.rows * m.seatsPerRow - SeatCount(m.bookings)
  }

  lemma {:induction false} SeatCountConcat(a: seq<BookingRec>, b: seq<BookingRec>)
    ensures SeatCount(a + b) == SeatCount(a) + SeatCount(b)
  {
    if a == [] {
      assert a + b == b;
    } else {
      assert (a + b)[1..] == a[1..] + b;
      SeatCountConcat(a[1..], b);
    }
  }

  /** `movie_available_seats(movie)` */
  method MovieAvailableSeats(m: Movie) returns (available: int)
    ensures available == Available(m.ToRecord())
  {
    ghost var recs := m.ToRecord().bookings;
    var total := m.row * m.seatsPerRow;
    var booked := 0;
    for i := 0 to |m.bookings|
      invariant booked == SeatCount(recs[..i])
    {
      assert recs[..i + 1] == recs[..i] + [recs[i]];
      SeatCountConcat(recs[..i], [recs[i]]);
      booked := booked + |m.bookings[i].seats|;
    }
    assert recs[..|recs|] == recs;
    available := total - booked;
  }

  /** Adding a booking lowers the count by the seats it lists. */
  lemma AvailableAfterAdd(m: MovieRec, b: BookingRec)
    ensures Available(m.(bookings := m.bookings + [b])) == Available(m) - |b.seats|
  {
    SeatCountConcat(m.bookings, [b]);
  }

  /** The count looks only at the seat lists, so it ignores statuses. */
  lemma {:induction false} SeatCountSameSeats(a: seq<BookingRec>, b: seq<BookingRec>)
    requires |a| == |b| && forall k :: 0 <= k < |a| ==> a[k].seats == b[k].seats
    ensures SeatCount(a) == SeatCount(b)
  {
    if a != [] {
      assert forall k :: 0 <= k < |a| - 1 ==> a[1..][k].seats == a[k + 1].seats == b[k + 1].seats == b[1..][k].seats;
      SeatCountSameSeats(a[1..], b[1..]);
    }
  }

  /** Confirming or unbooking a reservation does not change the count. */
  lemma AvailableAfterStatus(m: MovieRec, id: string, status: string)
    ensures Available(m.(bookings := SetStatus(m.bookings, id, status))) == Available(m)
  {
    SeatCountSameSeats(SetStatus(m.bookings, id, status), m.bookings);
  }

  /** Removing the bookings of an ID never lowers the count. */
  lemma {:induction false} SeatCountRemove(bs: seq<BookingRec>, id: string)
    ensures SeatCount(RemoveAll(bs, id)) <= SeatCount(bs)
  {
    if bs != [] {
      SeatCountRemove(bs[1..], id);
      var head := if bs[0].id != id then [bs[0]] else [];
      assert RemoveAll(bs, id) == head + RemoveAll(bs[1..], id);
      SeatCountConcat(head, RemoveAll(bs[1..], id));
    }
  }

  /** Every seat of a grid, free or not. */
  function GridSeats(rows: nat, seatsPerRow: nat): (g: set<Seat>)
    ensures forall s :: s in g <==> InGrid(s, rows, seatsPerRow)
  {
    var g := set r: nat, c: nat | r < rows && 1 <= c <= seatsPerRow :: Seat(r, c);
    assert forall s :: InGrid(s, rows, seatsPerRow) ==> s in g by {
      forall s | InGrid(s, rows, seatsPerRow) ensures s in g {
        assert s == Seat(s.row, s.col);
      }
    }
    g
  }

  /** Row `r` adds `seatsPerRow` seats the rows before it do not have. */
  lemma NewRow(r: nat, seatsPerRow: nat)
    ensures |GridSeats(r + 1, seatsPerRow)| == |GridSeats(r, seatsPerRow)| + seatsPerRow
  {
    var before, row := GridSeats(r, seatsPerRow), Elements(RowSeats(r, seatsPerRow));
    RowSeatsElements(r, seatsPerRow);
    DistinctCardinality(RowSeats(r, seatsPerRow));
    DisjointUnionCount(before, row);
    assert GridSeats(r + 1, seatsPerRow) == before + row;
  }

  /** `rows * seatsPerRow`, counted row by row. */
  function GridSize(rows: nat, seatsPerRow: nat): nat {
    if rows == 0 then 0 else GridSize(rows - 1, seatsPerRow) + seatsPerRow
  }

  lemma {:induction false} GridSizeProduct(rows: nat, seatsPerRow: nat)
    ensures GridSize(rows, seatsPerRow) == rows * seatsPerRow
  {
    if rows > 0 {
      GridSizeProduct(rows - 1, seatsPerRow);
      MulStep(rows - 1, seatsPerRow);
    }
  }

  /** The grid has `rows * seatsPerRow` seats. */
  lemma {:induction false} GridSeatsCount(rows: nat, seatsPerRow: nat)
    ensures |GridSeats(rows, seatsPerRow)| == rows * seatsPerRow
  {
    GridSeatsSize(rows, seatsPerRow);
    GridSizeProduct(rows, seatsPerRow);
  }

  lemma {:induction false} GridSeatsSize(rows: nat, seatsPerRow: nat)
    ensures |GridSeats(rows, seatsPerRow)| == GridSize(rows, seatsPerRow)
  {
    if rows > 0 {
      GridSeatsSize(rows - 1, seatsPerRow);
      NewRow(rows - 1, seatsPerRow);
    }
  }

  lemma DisjointUnionCount<T>(a: set<T>, b: set<T>)
    requires forall x :: x in b ==> x !in a
    ensures |a + b| == |a| + |b|
  {
    assert a * b == {};
  }

  lemma MulStep(a: nat, b: nat)
    ensures (a + 1) * b == a * b + b
  {
  }

  /** Booked bookings cannot block more seats than they list. */
  lemma {:induction false} OccupiedCount(bs: seq<BookingRec>)
    ensures |Occupied(bs)| <= SeatCount(bs)
  {
    if bs != [] {
      var init, last := bs[..|bs| - 1], bs[|bs| - 1];
      OccupiedCount(init);
      CardinalityAtMostLength(last.seats);
      assert bs == init + [last];
      SeatCountConcat(init, [last]);
    }
  }

  /** The count the ticket prompt checks against never exceeds the number of
      seats the allocator can hand out. The two differ because reserved
      seats are counted here but stay free for allocation. */
  lemma AvailableAtMostFree(m: MovieRec)
    ensures Available(m) <= |FreeSeats(m)|
  {
    var g, occ := GridSeats(m.rows, m.seatsPerRow), Occupied(m.bookings);
    GridSeatsCount(m.rows, m.seatsPerRow);
    OccupiedCount(m.bookings);
    assert FreeSeats(m) == g - occ;
    DifferenceCount(g, occ);
  }

  lemma DifferenceCount<T>(a: set<T>, b: set<T>)
    ensures |a - b| >= |a| - |b|
  {
    assert a == (a - b) + (a * b);
    assert b == (a * b) + (b - a);
  }

  /** A reservation lowers the count without taking a seat from the
      allocator, so the bound above can be strict. */
  lemma ReservedStillFree()
    ensures var m := MovieRec("T", 1, 2, [BookingRec("GIC0001", Reserved, [Seat(0, 1)])]);
      Available(m) == 1 && FreeSeats(m) == {Seat(0, 1), Seat(0, 2)}
  {
    var m := MovieRec("T", 1, 2, [BookingRec("GIC0001", Reserved, [Seat(0, 1)])]);
    assert Occupied(m.bookings) == {};
    assert SeatCount(m.bookings) == 1;
    forall s | s in FreeSeats(m) ensures s == Seat(0, 1) || s == Seat(0, 2) {
      assert s == Seat(s.row, s.col);
    }
  }

  /** The display symbol of a status: `'o'` for reserved, `'#'` for booked;
      any other status marks nothing. */
  function Symbol(status: string): Option<char> {
    if status == Reserved then Some('o') else if status == Booked then Some('#') else None
  }

  /** `int(seat[1:]) - 1` used as a list index: seat number 0 gives index -1,
      which Python reads as the last cell of the row. */
  function CellIndex(col: nat, seatsPerRow: nat): nat
    requires 1 <= seatsPerRow && col <= seatsPerRow
  {
    if col == 0 then seatsPerRow - 1 else col - 1
  }

  /** The display map has a cell for the seat: its row letter is a key and its
      number indexes that row's list. The source raises otherwise. */
  predicate Markable(s: Seat, rows: nat, seatsPerRow: nat) {
    s.row < rows && 1 <= seatsPerRow && s.col <= seatsPerRow
  }

  /** Seat `s` is written to cell `j` of row `i`. */
  predicate Lands(s: Seat, seatsPerRow: nat, i: nat, j: nat) {
    s.row == i && 1 <= seatsPerRow && s.col <= seatsPerRow && CellIndex(s.col, seatsPerRow) == j
  }

  /** Some seat of the list is written to cell `j` of row `i`. */
  predicate Hits(seats: seq<Seat>, seatsPerRow: nat, i: nat, j: nat) {
    seats != [] && (Hits(seats[..|seats| - 1], seatsPerRow, i, j) || Lands(seats[|seats| - 1], seatsPerRow, i, j))
  }

  lemma {:induction false} HitsMeans(seats: seq<Seat>, seatsPerRow: nat, i: nat, j: nat)
    ensures Hits(seats, seatsPerRow, i, j) <==> exists k :: 0 <= k < |seats| && Lands(seats[k], seatsPerRow, i, j)
  {
    if seats != [] {
      var init := seats[..|seats| - 1];
      HitsMeans(init, seatsPerRow, i, j);
      assert forall k :: 0 <= k < |init| ==> init[k] == seats[k];
    }
  }

  /** The cell after marking one booking over `prev`. */
  function Mark(prev: char, status: string, seats: seq<Seat>, seatsPerRow: nat, i: nat, j: nat): char {
    if Symbol(status).Some? && Hits(seats, seatsPerRow, i, j) then Symbol(status).value else prev
  }

  /** Writes `symbol` to the cell of every seat of the list. */
  method MarkAll(grid: array2<char>, symbol: char, seats: seq<Seat>)
    requires forall k :: 0 <= k < |seats| ==> Markable(seats[k], grid.Length0, grid.Length1)
    modifies grid
    ensures forall i, j :: 0 <= i < grid.Length0 && 0 <= j < grid.Length1 ==>
      grid[i, j] == (if Hits(seats, grid.Length1, i, j) then symbol else old(grid[i, j]))
  {
    for k := 0 to |seats|
      invariant forall i, j :: 0 <= i < grid.Length0 && 0 <= j < grid.Length1 ==>
        grid[i, j] == (if Hits(seats[..k], grid.Length1, i, j) then symbol else old(grid[i, j]))
    {
      var seat := seats[k];
      assert seats[..k + 1][..k] == seats[..k];
      grid[seat.row, CellIndex(seat.col, grid.Length1)] := symbol;
    }
    assert seats[..|seats|] == seats;
  }

  /** `mark_seats_on_map(seat_map, status, seats)`: `"R"` writes `'o'` and
      `"B"` writes `'#'` to the listed seats' cells; other cells, and any
      other status, are left alone. */
  method MarkSeatsOnMap(grid: array2<char>, status: string, seats: seq<Seat>)
    requires Symbol(status).Some? ==> forall k :: 0 <= k < |seats| ==> Markable(seats[k], grid.Length0, grid.Length1)
    modifies grid
    ensures forall i, j :: 0 <= i < grid.Length0 && 0 <= j < grid.Length1 ==>
      grid[i, j] == Mark(old(grid[i, j]), status, seats, grid.Length1, i, j)
  {
    if status == Reserved {
      MarkAll(grid, 'o', seats);
    }
    if status == Booked {
      MarkAll(grid, '#', seats);
    }
  }

  /** The source can draw the booking: a marking status only lists seats
      that have a cell. */
  predicate Drawable(b: BookingRec, rows: nat, seatsPerRow: nat) {
    Symbol(b.status).Some? ==> forall k :: 0 <= k < |b.seats| ==> Markable(b.seats[k], rows, seatsPerRow)
  }

  /** Cell `j` of row `i` after the bookings are marked in ledger order. */
  function Cell(bs: seq<BookingRec>, seatsPerRow: nat, i: nat, j: nat): char {
    if bs == [] then '.'
    else
      var last := bs[|bs| - 1];
      Mark(Cell(bs[..|bs| - 1], seatsPerRow, i, j), last.status, last.seats, seatsPerRow, i, j)
  }

  /** `build_seat_display_map(movie)`: a row of `'.'` per row letter, then
      every booking marked in ledger order. */
  method BuildSeatDisplayMap(m: Movie) returns (grid: array2<char>)
    requires forall k :: 0 <= k < |m.bookings| ==> Drawable(m.bookings[k].ToRecord(), m.row, m.seatsPerRow)
    ensures fresh(grid) && grid.Length0 == m.row && grid.Length1 == m.seatsPerRow
    ensures forall i, j :: 0 <= i < grid.Length0 && 0 <= j < grid.Length1 ==>
      grid[i, j] == Cell(m.ToRecord().bookings, m.seatsPerRow, i, j)
  {
    ghost var recs := m.ToRecord().bookings;
    grid := new char[m.row, m.seatsPerRow]((i, j) => '.');
    for k := 0 to |m.bookings|
      invariant forall i, j :: 0 <= i < grid.Length0 && 0 <= j < grid.Length1 ==>
        grid[i, j] == Cell(recs[..k], m.seatsPerRow, i, j)
    {
      var b := m.bookings[k];
      CellSnoc(recs, k, m.seatsPerRow);
      MarkSeatsOnMap(grid, b.status, b.seats);
    }
    assert recs[..|recs|] == recs;
  }

  lemma CellSnoc(bs: seq<BookingRec>, k: nat, seatsPerRow: nat)
    requires k < |bs|
    ensures forall i, j ::
      Cell(bs[..k + 1], seatsPerRow, i, j) == Mark(Cell(bs[..k], seatsPerRow, i, j), bs[k].status, bs[k].seats, seatsPerRow, i, j)
  {
    assert bs[..k + 1][..k] == bs[..k];
  }

  /** The booking writes a symbol to cell `j` of row `i`. */
  predicate Marks(b: BookingRec, seatsPerRow: nat, i: nat, j: nat) {
    Symbol(b.status).Some? && Hits(b.seats, seatsPerRow, i, j)
  }

  /** A cell no booking marks stays `'.'`; with no bookings every cell is `'.'`. */
  lemma {:induction false} CellUnmarked(bs: seq<BookingRec>, seatsPerRow: nat, i: nat, j: nat)
    requires forall k :: 0 <= k < |bs| ==> !Marks(bs[k], seatsPerRow, i, j)
    ensures Cell(bs, seatsPerRow, i, j) == '.'
  {
    if bs != [] {
      var init := bs[..|bs| - 1];
      assert forall k :: 0 <= k < |init| ==> init[k] == bs[k];
      CellUnmarked(init, seatsPerRow, i, j);
    }
  }

  /** The last booking that marks a cell decides its symbol: later bookings
      overwrite earlier ones. */
  lemma {:induction false} CellLastWriter(bs: seq<BookingRec>, seatsPerRow: nat, i: nat, j: nat, k: nat)
    requires k < |bs| && Marks(bs[k], seatsPerRow, i, j)
    requires forall l :: k < l < |bs| ==> !Marks(bs[l], seatsPerRow, i, j)
    ensures Cell(bs, seatsPerRow, i, j) == Symbol(bs[k].status).value
  {
    if k < |bs| - 1 {
      var init := bs[..|bs| - 1];
      assert forall l :: 0 <= l < |init| ==> init[l] == bs[l];
      CellLastWriter(init, seatsPerRow, i, j, k);
    }
  }

  /** On a ledger whose seats lie on the grid, `'#'` shows a seat that blocks
      allocation and `'.'` a seat no booked booking holds. */
  lemma {:induction false} CellShowsOccupied(bs: seq<BookingRec>, rows: nat, seatsPerRow: nat, i: nat, j: nat)
    requires forall k, t :: 0 <= k < |bs| && 0 <= t < |bs[k].seats| ==> InGrid(bs[k].seats[t], rows, seatsPerRow)
    requires i < rows && j < seatsPerRow
    ensures Cell(bs, seatsPerRow, i, j) == '#' ==> Seat(i, j + 1) in Occupied(bs)
    ensures Cell(bs, seatsPerRow, i, j) == '.' ==> Seat(i, j + 1) !in Occupied(bs)
  {
    if bs != [] {
      var init, last := bs[..|bs| - 1], bs[|bs| - 1];
      assert forall k :: 0 <= k < |init| ==> init[k] == bs[k];
      CellShowsOccupied(init, rows, seatsPerRow, i, j);
      HitsMeans(last.seats, seatsPerRow, i, j);
      var s := Seat(i, j + 1);
      if s in last.seats {
        var t :| 0 <= t < |last.seats| && last.seats[t] == s;
        assert Lands(last.seats[t], seatsPerRow, i, j);
      }
      if Hits(last.seats, seatsPerRow, i, j) {
        var t :| 0 <= t < |last.seats| && Lands(last.seats[t], seatsPerRow, i, j);
        assert last.seats[t] == s;
      }
    }
  }
}
