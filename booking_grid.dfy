/** The seating grid and its occupancy (`build_seat_map`, `get_booked_seats`,
    `get_row_center` in booking.py): the seat universe derived from the grid
    dimensions, and the seats that block allocation. */
module Grid {
  import opened Seqs
  import opened Seats
  import opened MovieClasses

  /** `get_row_center`: the middle seat of an odd row, the left of the two middle
      seats of an even row. */
  function RowCenter(seatsPerRow: int): (c: int)
    ensures seatsPerRow % 2 == 0 ==> 2 * c == seatsPerRow
    ensures seatsPerRow % 2 == 1 ==> 2 * c == seatsPerRow + 1
    ensures seatsPerRow >= 1 ==> 1 <= c <= seatsPerRow
  {
    if seatsPerRow % 2 == 0 then seatsPerRow / 2 else (seatsPerRow + 1) / 2
  }

  /** The seats of row `r`, columns 1 to `seatsPerRow` in ascending order. */
  function RowSeats(r: nat, seatsPerRow: nat): (s: seq<Seat>)
    ensures |s| == seatsPerRow
    ensures forall j :: 0 <= j < seatsPerRow ==> s[j] == Seat(r, j + 1)
  {
    seq(seatsPerRow, j requires 0 <= j < seatsPerRow => Seat(r, j + 1))
  }

  /** The seat map: entry `i` is the row with letter `RowLetter(i)`. */
  function SeatMap(rows: nat, seatsPerRow: nat): (m: seq<seq<Seat>>)
    ensures |m| == rows && forall i :: 0 <= i < rows ==> m[i] == RowSeats(i, seatsPerRow)
  {
    seq(rows, i requires 0 <= i < rows => RowSeats(i, seatsPerRow))
  }

  lemma RowSeatsElements(r: nat, seatsPerRow: nat)
    ensures Distinct(RowSeats(r, seatsPerRow))
    ensures forall s :: s in RowSeats(r, seatsPerRow) <==> s.row == r && 1 <= s.col <= seatsPerRow
  {
    var row := RowSeats(r, seatsPerRow);
    forall s: Seat | s.row == r && 1 <= s.col <= seatsPerRow ensures s in row {
      assert row[s.col - 1] == s;
    }
  }

  /** `build_seat_map(movie)`: one row per letter from `A`, each listing its
      seats `A1 .. A{seats_per_row}` left to right. */
  method BuildSeatMap(rows: nat, seatsPerRow: nat) returns (m: seq<seq<Seat>>)
    requires rows <= MaxRows
    ensures m == SeatMap(rows, seatsPerRow)
    ensures forall i, j :: 0 <= i < rows && 0 <= j < seatsPerRow ==>
      |m[i]| == seatsPerRow && Label(m[i][j]) == [RowLetter(i)] + Text.DecimalString(j + 1)
  {
    m := [];
    for i := 0 to rows
      invariant m == SeatMap(i, seatsPerRow)
    {
      m := m + [RowSeats(i, seatsPerRow)];
    }
  }

  /** The seats held by `"B"` bookings: `get_booked_seats`. */
  function Occupied(bs: seq<BookingRec>): (occ: set<Seat>)
  {
    if bs == [] then {}
    else
      var last := bs[|bs| - 1];
      Occupied(bs[..|bs| - 1]) + (if last.status == Booked then Elements(last.seats) else {})
  }

  /** A seat is occupied exactly when some booked booking lists it; reserved
      bookings contribute nothing. */
  lemma {:induction false} OccupiedMeans(bs: seq<BookingRec>, s: Seat)
    ensures s in Occupied(bs) <==> exists i :: 0 <= i < |bs| && bs[i].status == Booked && s in bs[i].seats
  {
    if bs != [] {
      var init := bs[..|bs| - 1];
      OccupiedMeans(init, s);
      assert forall i :: 0 <= i < |init| ==> init[i] == bs[i];
    }
  }

  lemma OccupiedSnoc(bs: seq<BookingRec>, i: nat)
    requires i < |bs|
    ensures Occupied(bs[..i + 1]) ==
      Occupied(bs[..i]) + (if bs[i].status == Booked then Elements(bs[i].seats) else {})
  {
    assert bs[..i + 1][..i] == bs[..i];
  }

  /** `get_booked_seats(movie)`: the seats of the movie's `"B"` bookings. */
  method GetBookedSeats(m: Movie) returns (booked: set<Seat>)
    ensures booked == Occupied(m.ToRecord().bookings)
  {
    ghost var recs := m.ToRecord().bookings;
    booked := {};
    for i := 0 to |m.bookings|
      invariant booked == Occupied(recs[..i])
    {
      OccupiedSnoc(recs, i);
      var b := m.bookings[i];
      assert recs[i] == b.ToRecord();
      if b.status == Booked {
        var seats := b.seats;
        ghost var before := booked;
        for j := 0 to |seats|
          invariant booked == before + Elements(seats[..j])
        {
          ElementsSnoc(seats, j);
          booked := booked + {seats[j]};
        }
        assert seats[..|seats|] == seats;
      }
    }
    assert recs[..|recs|] == recs;
  }

  /** The seats of the grid that are not occupied: what the allocator may assign. */
  function FreeSeats(m: MovieRec): (free: set<Seat>)
    ensures forall s :: s in free <==> InGrid(s, m.rows, m.seatsPerRow) && s !in Occupied(m.bookings)
  {
    var occ := Occupied(m.bookings);
    var free := set r: nat, c: nat | r < m.rows && 1 <= c <= m.seatsPerRow && Seat(r, c) !in occ :: Seat(r, c);
    assert forall s :: InGrid(s, m.rows, m.seatsPerRow) && s !in occ ==> s in free by {
      forall s | InGrid(s, m.rows, m.seatsPerRow) && s !in occ ensures s in free {
        assert s == Seat(s.row, s.col);
      }
    }
    free
  }

  /** `[s for s in seats if s not in booked and s not in assigned]`, in order. */
  function Unassigned(seats: seq<Seat>, booked: set<Seat>, taken: seq<Seat>): (r: seq<Seat>)
    ensures forall s :: s in r <==> s in seats && s !in booked && s !in taken
    ensures |r| <= |seats|
  {
    if seats == [] then []
    else
      var rest := Unassigned(seats[1..], booked, taken);
      if seats[0] !in booked && seats[0] !in taken then [seats[0]] + rest else rest
  }

  /** Filtering a duplicate-free list leaves it duplicate-free. */
  lemma {:induction false} UnassignedDistinct(seats: seq<Seat>, booked: set<Seat>, taken: seq<Seat>)
    requires Distinct(seats)
    ensures Distinct(Unassigned(seats, booked, taken))
  {
    if seats != [] {
      var rest := Unassigned(seats[1..], booked, taken);
      assert Distinct(seats[1..]);
      UnassignedDistinct(seats[1..], booked, taken);
      if seats[0] !in booked && seats[0] !in taken {
        assert seats[0] !in seats[1..];
        DistinctConcat([seats[0]], rest);
      }
    }
  }

  lemma UnassignedSingle(seat: Seat, booked: set<Seat>, taken: seq<Seat>)
    ensures Unassigned([seat], booked, taken) == if seat !in booked && seat !in taken then [seat] else []
  {
    assert [seat][1..] == [];
  }

  lemma {:induction false} UnassignedConcat(a: seq<Seat>, b: seq<Seat>, booked: set<Seat>, taken: seq<Seat>)
    ensures Unassigned(a + b, booked, taken) == Unassigned(a, booked, taken) + Unassigned(b, booked, taken)
  {
    if a != [] {
      var ab := a + b;
      assert ab[0] == a[0] && ab[1..] == a[1..] + b;
      UnassignedConcat(a[1..], b, booked, taken);
      var ua, ub := Unassigned(a[1..], booked, taken), Unassigned(b, booked, taken);
      if a[0] !in booked && a[0] !in taken {
        assert Unassigned(ab, booked, taken) == [a[0]] + (ua + ub);
        assert Unassigned(a, booked, taken) == [a[0]] + ua;
        assert [a[0]] + (ua + ub) == ([a[0]] + ua) + ub;
      } else {
        assert Unassigned(ab, booked, taken) == ua + ub;
        assert Unassigned(a, booked, taken) == ua;
      }
    } else {
      assert a + b == b;
    }
  }
}
