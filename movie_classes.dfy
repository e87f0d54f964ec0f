/** The booking ledger: `Booking` and `Movie` objects whose fields are updated
    in place, and their dictionary forms `BookingRec` and `MovieRec`, which are
    the values the allocator reads. */
module MovieClasses {
  import opened Wrappers
  import opened Seqs
  import opened Seats

  /** Status of a booking that is held but not confirmed. */
  const Reserved: string := "R"
  /** Status of a confirmed booking; only these seats block allocation. */
  const Booked: string := "B"

  /** `{"ID": ..., "status": ..., "seats": [...]}` */
  datatype BookingRec = BookingRec(id: string, status: string, seats: seq<Seat>)

  /** `{"title": ..., "row": ..., "seats_per_row": ..., "bookings": [...]}` */
  datatype MovieRec = MovieRec(title: string, rows: nat, seatsPerRow: nat, bookings: seq<BookingRec>)

  /** What a function of the program may be handed as its movie: the
      dictionary form, with or without a `"bookings"` key, or a `Movie`
      object (whose state `MovieRec` records). */
  datatype MovieArg = MovieDict(bookings: Option<seq<BookingRec>>) | MovieObject(movie: MovieRec)

  /** Index of the first booking with ID `id`, the one `get_booking` returns. */
  function FindFirst(bs: seq<BookingRec>, id: string): (r: Option<nat>)
    ensures r.None? <==> forall i :: 0 <= i < |bs| ==> bs[i].id != id
    ensures r.Some? ==> r.value < |bs| && bs[r.value].id == id
    ensures r.Some? ==> forall j :: 0 <= j < r.value ==> bs[j].id != id
  {
    if bs == [] then None
    else if bs[0].id == id then Some(0)
    else match FindFirst(bs[1..], id)
      case None => None
      case Some(i) => Some(i + 1)
  }

  lemma FindFirstAt(bs: seq<BookingRec>, id: string, i: nat)
    requires i < |bs| && bs[i].id == id
    requires forall k :: 0 <= k < i ==> bs[k].id != id
    ensures FindFirst(bs, id) == Some(i)
  {
  }

  /** The ledger without any booking whose ID is `id`, in the original order. */
  function RemoveAll(bs: seq<BookingRec>, id: string): (r: seq<BookingRec>)
    ensures forall b :: b in r <==> b in bs && b.id != id
    ensures |r| <= |bs|
  {
    if bs == [] then []
    else (if bs[0].id != id then [bs[0]] else []) + RemoveAll(bs[1..], id)
  }

  /** Removal works piece by piece, so it keeps the relative order of what remains. */
  lemma {:induction false} RemoveAllConcat(a: seq<BookingRec>, b: seq<BookingRec>, id: string)
    ensures RemoveAll(a + b, id) == RemoveAll(a, id) + RemoveAll(b, id)
  {
    if a != [] {
      assert (a + b)[1..] == a[1..] + b;
      RemoveAllConcat(a[1..], b, id);
    } else {
      assert a + b == b;
    }
  }

  /** Removing an ID nobody has changes nothing. */
  lemma {:induction false} RemoveAllAbsent(bs: seq<BookingRec>, id: string)
    requires forall i :: 0 <= i < |bs| ==> bs[i].id != id
    ensures RemoveAll(bs, id) == bs
  {
    if bs != [] {
      RemoveAllAbsent(bs[1..], id);
      assert [bs[0]] + bs[1..] == bs;
    }
  }

  /** The ledger after `get_booking(id).status = status`: only the first booking
      with that ID changes, and an unknown ID changes nothing. */
  function SetStatus(bs: seq<BookingRec>, id: string, status: string): (r: seq<BookingRec>)
    ensures |r| == |bs|
    ensures forall k :: 0 <= k < |bs| ==> r[k].id == bs[k].id && r[k].seats == bs[k].seats
    ensures FindFirst(bs, id).None? ==> r == bs
    ensures FindFirst(bs, id).Some? ==>
      var i := FindFirst(bs, id).value;
      r[i].status == status && forall k :: 0 <= k < |bs| && k != i ==> r[k] == bs[k]
  {
    match FindFirst(bs, id)
    case None => bs
    case Some(i) => bs[i := bs[i].(status := status)]
  }

  /** With a booking of that ID present, only the first one's status changes. */
  lemma SetStatusFound(bs: seq<BookingRec>, id: string, i: nat, status: string)
    requires FindFirst(bs, id) == Some(i)
    ensures SetStatus(bs, id, status) == bs[i := bs[i].(status := status)]
  {
  }

  /** Setting the status of the same booking twice leaves the second status. */
  lemma SetStatusTwice(bs: seq<BookingRec>, id: string, s1: string, s2: string)
    ensures SetStatus(SetStatus(bs, id, s1), id, s2) == SetStatus(bs, id, s2)
  {
    var once := SetStatus(bs, id, s1);
    assert FindFirst(once, id) == FindFirst(bs, id) by {
      FindFirstSameIds(bs, once, id);
    }
  }

  lemma {:induction false} FindFirstSameIds(a: seq<BookingRec>, b: seq<BookingRec>, id: string)
    requires |a| == |b| && forall k :: 0 <= k < |a| ==> a[k].id == b[k].id
    ensures FindFirst(a, id) == FindFirst(b, id)
  {
    if a != [] {
      assert forall k :: 0 <= k < |a| - 1 ==> a[1..][k].id == a[k + 1].id == b[k + 1].id == b[1..][k].id;
      FindFirstSameIds(a[1..], b[1..], id);
    }
  }

  /** A booking record of the program: its fields change in place. */
  class Booking {
    var id: string
    var status: string
    var seats: seq<Seat>

    /** `Booking(booking_id, status, seats)`; the seat list is a value, so the
        booking keeps its own copy as `list(seats)` does. */
    constructor (bookingId: string, status: string, seats: seq<Seat>)
      ensures ToRecord() == BookingRec(bookingId, status, seats)
    {
      this.id := bookingId;
      this.status := status;
      this.seats := seats;
    }

    /** `Booking.from_dict(data)` */
    constructor FromRecord(data: BookingRec)
      ensures ToRecord() == data
    {
      this.id := data.id;
      this.status := data.status;
      this.seats := data.seats;
    }

    /** `to_dict()` */
    function ToRecord(): BookingRec
      reads this
    {
      BookingRec(id, status, seats)
    }

    /** `__eq__`: the other value is a booking with the same ID, status and seats. */
    function Equals(other: Booking?): (r: bool)
      reads this, other
      ensures r <==> other != null && ToRecord() == other.ToRecord()
    {
      other != null && id == other.id && status == other.status && seats == other.seats
    }
  }

  /** The dictionary forms of a list of bookings, element by element. */
  function Records(bs: seq<Booking>): (r: seq<BookingRec>)
    reads bs
    ensures |r| == |bs| && forall i :: 0 <= i < |bs| ==> r[i] == bs[i].ToRecord()
  {
    if bs == [] then [] else [bs[0].ToRecord()] + Records(bs[1..])
  }

  /** The bookings of `bs` whose ID is not `id`, in order. */
  function KeepOthers(bs: seq<Booking>, id: string): (r: seq<Booking>)
    reads bs
    ensures forall b :: b in r ==> b in bs
  {
    if bs == [] then []
    else (if bs[0].id != id then [bs[0]] else []) + KeepOthers(bs[1..], id)
  }

  lemma RecordsConcat(a: seq<Booking>, b: seq<Booking>)
    ensures Records(a + b) == Records(a) + Records(b)
  {
    var r := Records(a + b);
    assert |r| == |Records(a) + Records(b)|;
    forall i | 0 <= i < |r| ensures r[i] == (Records(a) + Records(b))[i] {
      if i < |a| {
        assert (a + b)[i] == a[i];
      } else {
        assert (a + b)[i] == b[i - |a|];
      }
    }
  }

  /** Dropping bookings by ID and then taking dictionary forms is the same as
      taking dictionary forms and then dropping records by ID. */
  lemma {:induction false} KeepOthersRecords(bs: seq<Booking>, id: string)
    ensures Records(KeepOthers(bs, id)) == RemoveAll(Records(bs), id)
  {
    if bs != [] {
      var head: seq<Booking> := if bs[0].id != id then [bs[0]] else [];
      KeepOthersRecords(bs[1..], id);
      RecordsConcat(head, KeepOthers(bs[1..], id));
      assert Records(bs)[1..] == Records(bs[1..]);
    }
  }

  lemma {:induction false} KeepOthersDistinct(bs: seq<Booking>, id: string)
    requires Distinct(bs)
    ensures Distinct(KeepOthers(bs, id))
  {
    if bs != [] {
      var rest := KeepOthers(bs[1..], id);
      assert Distinct(bs[1..]);
      KeepOthersDistinct(bs[1..], id);
      if bs[0].id != id {
        assert bs[0] !in bs[1..];
        DistinctAppend([bs[0]], rest);
      }
    }
  }

  /** When every booking object but the `i`-th still has its recorded
      dictionary form and the `i`-th differs only in status, the ledger's
      dictionary forms differ from the recorded ones in just that entry. */
  lemma StatusUpdated(bs: seq<Booking>, before: seq<BookingRec>, i: nat, status: string)
    requires |bs| == |before| && i < |bs|
    requires forall k :: 0 <= k < |bs| && k != i ==> bs[k].ToRecord() == before[k]
    requires bs[i].ToRecord() == before[i].(status := status)
    ensures Records(bs) == before[i := before[i].(status := status)]
  {
  }

  /** A movie: its title, grid dimensions and booking ledger. */
  class Movie {
    var title: string
    var row: nat
    var seatsPerRow: nat
    var bookings: seq<Booking>

    /** No booking object is listed twice, so updating one booking in place
        changes exactly one ledger entry. */
    ghost predicate Valid()
      reads this
    {
      Distinct(bookings)
    }

    /** `to_dict()` */
    function ToRecord(): (r: MovieRec)
      reads this, bookings
      ensures r.title == title && r.rows == row && r.seatsPerRow == seatsPerRow
      ensures r.bookings == Records(bookings)
    {
      MovieRec(title, row, seatsPerRow, Records(bookings))
    }

    /** `Movie(title, row, seats_per_row, bookings)`; the list is copied. */
    constructor (title: string, row: nat, seatsPerRow: nat, bookings: seq<Booking>)
      ensures this.title == title && this.row == row && this.seatsPerRow == seatsPerRow
      ensures this.bookings == bookings
    {
      this.title := title;
      this.row := row;
      this.seatsPerRow := seatsPerRow;
      this.bookings := bookings;
    }

    /** `Movie.from_dict(data)`: one new booking object per entry. Together with
        `ToRecord` this is the round trip `from_dict(m.to_dict())`. */
    constructor FromRecord(data: MovieRec)
      ensures Valid() && ToRecord() == data
      ensures forall b :: b in bookings ==> fresh(b)
    {
      var bs: seq<Booking> := [];
      for i := 0 to |data.bookings|
        invariant |bs| == i && Distinct(bs)
        invariant forall k :: 0 <= k < i ==> fresh(bs[k]) && bs[k].ToRecord() == data.bookings[k]
      {
        var b := new Booking.FromRecord(data.bookings[i]);
        bs := bs + [b];
      }
      this.title := data.title;
      this.row := data.rows;
      this.seatsPerRow := data.seatsPerRow;
      this.bookings := bs;
    }

    /** `add_booking(booking)`: appends at the end; earlier bookings are untouched. */
    method AddBooking(booking: Booking)
      modifies this
      ensures title == old(title) && row == old(row) && seatsPerRow == old(seatsPerRow)
      ensures bookings == old(bookings) + [booking]
      ensures ToRecord().bookings == old(ToRecord().bookings) + [booking.ToRecord()]
      ensures Valid() <==> old(Valid()) && booking !in old(bookings)
    {
      ghost var before := bookings;
      bookings := bookings + [booking];
      assert Records(bookings) == Records(before) + [booking.ToRecord()];
      DistinctConcat(before, [booking]);
    }

    /** `get_booking(booking_id)`: the first booking with that ID, or null. */
    method GetBooking(bookingId: string) returns (b: Booking?)
      ensures FindFirst(ToRecord().bookings, bookingId).None? ==> b == null
      ensures FindFirst(ToRecord().bookings, bookingId).Some? ==>
        b == bookings[FindFirst(ToRecord().bookings, bookingId).value]
    {
      ghost var recs := Records(bookings);
      for i := 0 to |bookings|
        invariant forall k :: 0 <= k < i ==> recs[k].id != bookingId
      {
        if bookings[i].id == bookingId {
          FindFirstAt(recs, bookingId, i);
          return bookings[i];
        }
        assert recs[i].id != bookingId;
      }
      return null;
    }

    /** `booking.status = status` for the `i`-th booking of the ledger: that
        entry's status changes and every other entry keeps its dictionary form. */
    method SetStatusAt(b: Booking, ghost i: nat, status: string)
      requires Valid() && i < |bookings| && bookings[i] == b
      modifies b
      ensures Valid() && bookings == old(bookings)
      ensures Records(bookings) == old(Records(bookings))[i := old(Records(bookings))[i].(status := status)]
    {
      ghost var recs := Records(bookings);
      b.status := status;
      forall k | 0 <= k < |bookings| && k != i ensures bookings[k].ToRecord() == recs[k] {
        assert bookings[k] != b;
      }
      StatusUpdated(bookings, recs, i, status);
    }

    /** `remove_booking(booking_id)`: drops every booking with that ID. */
    method RemoveBooking(bookingId: string)
      modifies this
      ensures title == old(title) && row == old(row) && seatsPerRow == old(seatsPerRow)
      ensures ToRecord().bookings == RemoveAll(old(ToRecord().bookings), bookingId)
      ensures forall b :: b in bookings ==> b in old(bookings)
      ensures old(Valid()) ==> Valid()
    {
      var kept := KeepOthers(bookings, bookingId);
      ghost var recs := Records(kept);
      KeepOthersRecords(bookings, bookingId);
      if Distinct(bookings) {
        KeepOthersDistinct(bookings, bookingId);
      }
      bookings := kept;
      assert Records(bookings) == recs;
    }
  }

  /** `Booking.from_dict(b.to_dict())`: a new booking object that `__eq__`
      finds equal to the original. */
  method CopyBooking(b: Booking) returns (c: Booking)
    ensures fresh(c) && c != b && c.Equals(b) && b.Equals(c)
  {
    c := new Booking.FromRecord(b.ToRecord());
  }

  /** `Movie.from_dict(m.to_dict())`: a new movie whose bookings are new
      objects, each equal under `__eq__` to the one at the same position. */
  method CopyMovie(m: Movie) returns (c: Movie)
    ensures fresh(c) && c.Valid() && c.ToRecord() == m.ToRecord()
    ensures |c.bookings| == |m.bookings|
    ensures forall i :: 0 <= i < |c.bookings| ==>
      fresh(c.bookings[i]) && c.bookings[i] != m.bookings[i] && c.bookings[i].Equals(m.bookings[i])
  {
    c := new Movie.FromRecord(m.ToRecord());
    forall i | 0 <= i < |c.bookings|
      ensures fresh(c.bookings[i]) && c.bookings[i].ToRecord() == m.bookings[i].ToRecord()
    {
      assert c.bookings[i] in c.bookings;
      assert Records(c.bookings)[i] == Records(m.bookings)[i];
    }
  }
}
