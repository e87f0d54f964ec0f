/** Default seat allocation (`ordered_free_seat_map`, `default_seating` in
    booking.py): rows are filled front to back, and within a row the most
    central free seats come first. */
module DefaultSeating {
  import opened Seqs
  import opened Seats
  import opened MovieClasses
  import opened Grid
  import opened Ranking

  /** The order in which default seating hands out seats: by row from the
      screen back, then by centrality within the row. */
  predicate RowMajorLe(a: Seat, b: Seat, seatsPerRow: nat) {
    a.row < b.row || (a.row == b.row && KeyLe(a, b, seatsPerRow))
  }

  /** `ordered_free_seat_map(seat_map, booked)`: each row's unbooked seats in
      centrality order, rows in order. */
  function OrderedFree(seatMap: seq<seq<Seat>>, booked: set<Seat>): seq<Seat>
  {
    if seatMap == [] then []
    else
      var last := seatMap[|seatMap| - 1];
      OrderedFree(seatMap[..|seatMap| - 1], booked) + SeatSortOrder(Unassigned(last, booked, []), |last|, 0)
  }

  /** The ordered list holds exactly the unbooked seats of the map. */
  lemma {:induction false} OrderedFreeElements(seatMap: seq<seq<Seat>>, booked: set<Seat>, s: Seat)
    ensures s in OrderedFree(seatMap, booked) <==>
      s !in booked && exists i :: 0 <= i < |seatMap| && s in seatMap[i]
  {
    if seatMap != [] {
      var n := |seatMap| - 1;
      var init, last := seatMap[..n], seatMap[n];
      OrderedFreeElements(init, booked, s);
      BlockElements(last, booked, s);
      if s !in booked && exists i :: 0 <= i < |seatMap| && s in seatMap[i] {
        var i :| 0 <= i < |seatMap| && s in seatMap[i];
        if i < n {
          assert init[i] == seatMap[i];
        }
      }
      if s in OrderedFree(init, booked) {
        var i :| 0 <= i < |init| && s in init[i];
        assert init[i] == seatMap[i];
      }
    }
  }

  /** One row's contribution: its unbooked seats. */
  lemma BlockElements(row: seq<Seat>, booked: set<Seat>, s: Seat)
    ensures s in SeatSortOrder(Unassigned(row, booked, []), |row|, 0) <==> s in row && s !in booked
  {
    SeatSortOrderAll(Unassigned(row, booked, []), |row|);
  }

  /** `ordered_free_seat_map`, whose loop extends the result row by row. */
  method OrderedFreeSeatMap(seatMap: seq<seq<Seat>>, booked: set<Seat>) returns (result: seq<Seat>)
    ensures result == OrderedFree(seatMap, booked)
    ensures forall s :: s in result <==> s !in booked && exists i :: 0 <= i < |seatMap| && s in seatMap[i]
  {
    result := [];
    for i := 0 to |seatMap|
      invariant result == OrderedFree(seatMap[..i], booked)
    {
      assert seatMap[..i + 1][..i] == seatMap[..i];
      var seats := Unassigned(seatMap[i], booked, []);
      var ordered := SortSeats(seats, |seatMap[i]|, 0);
      result := result + ordered;
    }
    assert seatMap[..|seatMap|] == seatMap;
    forall s ensures s in result <==> s !in booked && exists i :: 0 <= i < |seatMap| && s in seatMap[i] {
      OrderedFreeElements(seatMap, booked, s);
    }
  }

  lemma OrderedFreeUnfold(seatMap: seq<seq<Seat>>, booked: set<Seat>)
    requires seatMap != []
    ensures OrderedFree(seatMap, booked) == OrderedFree(seatMap[..|seatMap| - 1], booked) +
      SeatSortOrder(Unassigned(seatMap[|seatMap| - 1], booked, []), |seatMap[|seatMap| - 1]|, 0)
  {
  }

  /** Row `r` of the grid contributes its unbooked seats, each once, most central first. */
  lemma GridRowBlock(r: nat, seatsPerRow: nat, booked: set<Seat>)
    ensures var block := SeatSortOrder(Unassigned(RowSeats(r, seatsPerRow), booked, []), seatsPerRow, 0);
      Distinct(block) && Sorted(block, seatsPerRow) &&
      forall s :: s in block <==> s.row == r && 1 <= s.col <= seatsPerRow && s !in booked
  {
    var free := Unassigned(RowSeats(r, seatsPerRow), booked, []);
    RowSeatsElements(r, seatsPerRow);
    UnassignedDistinct(RowSeats(r, seatsPerRow), booked, []);
    SeatSortOrderAll(free, seatsPerRow);
    SeatSortOrderSpec(free, seatsPerRow, 0);
  }

  /** On the grid's own seat map, the ordered list is every free seat exactly
      once, front row first and most central first within a row. */
  lemma {:induction false} OrderedFreeOfGrid(rows: nat, seatsPerRow: nat, booked: set<Seat>)
    ensures var r := OrderedFree(SeatMap(rows, seatsPerRow), booked);
      Distinct(r) &&
      (forall s :: s in r <==> InGrid(s, rows, seatsPerRow) && s !in booked) &&
      (forall i, j :: 0 <= i < j < |r| ==> RowMajorLe(r[i], r[j], seatsPerRow))
  {
    if rows > 0 {
      var m := SeatMap(rows, seatsPerRow);
      assert m[..rows - 1] == SeatMap(rows - 1, seatsPerRow);
      assert m[rows - 1] == RowSeats(rows - 1, seatsPerRow);
      OrderedFreeUnfold(m, booked);
      OrderedFreeOfGrid(rows - 1, seatsPerRow, booked);
      GridRowBlock(rows - 1, seatsPerRow, booked);
      var prev := OrderedFree(SeatMap(rows - 1, seatsPerRow), booked);
      var block := SeatSortOrder(Unassigned(RowSeats(rows - 1, seatsPerRow), booked, []), seatsPerRow, 0);
      RowMajorAppend(prev, block, rows - 1, seatsPerRow);
    }
  }

  /** Rows before `r` in row-major order, followed by row `r` in centrality
      order, stay in row-major order and duplicate-free. */
  lemma RowMajorAppend(prev: seq<Seat>, block: seq<Seat>, r: nat, seatsPerRow: nat)
    requires Distinct(prev) && Distinct(block) && Sorted(block, seatsPerRow)
    requires forall s :: s in prev ==> s.row < r
    requires forall s :: s in block ==> s.row == r
    requires forall i, j :: 0 <= i < j < |prev| ==> RowMajorLe(prev[i], prev[j], seatsPerRow)
    ensures Distinct(prev + block)
    ensures forall i, j :: 0 <= i < j < |prev + block| ==> RowMajorLe((prev + block)[i], (prev + block)[j], seatsPerRow)
  {
    DistinctAppend(prev, block);
    var q := prev + block;
    forall i, j | 0 <= i < j < |q| ensures RowMajorLe(q[i], q[j], seatsPerRow) {
      if j < |prev| {
        assert q[i] == prev[i] && q[j] == prev[j];
      } else if i < |prev| {
        assert q[i] in prev && q[j] in block;
      } else {
        assert q[i] == block[i - |prev|] && q[j] == block[j - |prev|];
      }
    }
  }

  /** `default_seating(movie, num_tickets)`: the first `num_tickets` seats of
      the ordered free list (Python slice semantics). */
  function DefaultSeats(m: MovieRec, numTickets: int): seq<Seat>
  {
    Slice(OrderedFree(SeatMap(m.rows, m.seatsPerRow), Occupied(m.bookings)), numTickets)
  }

  /** Default seating picks as many free seats as asked for, or all of them when
      fewer are free, never a seat twice, and no free seat it leaves out comes
      earlier in the row-then-centrality order than one it picks. */
  lemma DefaultSeatsBest(m: MovieRec, numTickets: nat)
    ensures var r := DefaultSeats(m, numTickets);
      |r| == (if numTickets < |FreeSeats(m)| then numTickets else |FreeSeats(m)|) &&
      Distinct(r) &&
      (forall s :: s in r ==> s in FreeSeats(m)) &&
      (forall s, t :: s in r && t in FreeSeats(m) && t !in r ==> RowMajorLe(s, t, m.seatsPerRow))
  {
    var all := OrderedFree(SeatMap(m.rows, m.seatsPerRow), Occupied(m.bookings));
    var r := DefaultSeats(m, numTickets);
    OrderedFreeOfGrid(m.rows, m.seatsPerRow, Occupied(m.bookings));
    assert Elements(all) == FreeSeats(m);
    DistinctCardinality(all);
    DistinctPrefix(all, numTickets);
    forall s, t | s in r && t in FreeSeats(m) && t !in r ensures RowMajorLe(s, t, m.seatsPerRow) {
      var i :| 0 <= i < |r| && r[i] == s;
      var j :| 0 <= j < |all| && all[j] == t;
      assert all[i] == s;
    }
  }

  /** `default_seating(movie, num_tickets)` */
  method DefaultSeating(m: Movie, numTickets: int) returns (seats: seq<Seat>)
    requires m.row <= MaxRows
    ensures seats == DefaultSeats(m.ToRecord(), numTickets)
    ensures numTickets >= 0 ==> Distinct(seats) && forall s :: s in seats ==> s in FreeSeats(m.ToRecord())
  {
    var seatMap := BuildSeatMap(m.row, m.seatsPerRow);
    var booked := GetBookedSeats(m);
    var ordered := OrderedFreeSeatMap(seatMap, booked);
    seats := Slice(ordered, numTickets);
    if numTickets >= 0 {
      DefaultSeatsBest(m.ToRecord(), numTickets);
    }
  }
}
