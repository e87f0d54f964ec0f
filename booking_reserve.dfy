/** Booking IDs and confirmation (`get_booking_id`, `confirm_reservation` in
    booking.py). */
module Reservations {
  import opened Wrappers
  import opened Text
  import opened MovieClasses

  /** The number of an ID of the form `GIC<digits>` (`bid.startswith("GIC") and
      bid[3:].isdigit()`), `None` for any other ID. */
  function IdNumber(id: string): Option<nat>
  {
    if |id| >= 3 && id[..3] == "GIC" && IsDecimal(id[3..]) then Some(DecimalValue(id[3..])) else None
  }

  /** The running `max_id` of `get_booking_id` over the whole ledger: the
      largest `GIC` number in use, or 0 when there is none. */
  function MaxIdNumber(bs: seq<BookingRec>): (mx: nat)
    ensures forall k :: 0 <= k < |bs| && IdNumber(bs[k].id).Some? ==> IdNumber(bs[k].id).value <= mx
    ensures mx == 0 || exists k :: 0 <= k < |bs| && IdNumber(bs[k].id) == Some(mx)
  {
    if bs == [] then 0
    else
      var init := bs[..|bs| - 1];
      var prev := MaxIdNumber(init);
      assert forall k :: 0 <= k < |init| ==> init[k] == bs[k];
      match IdNumber(bs[|bs| - 1].id)
      case Some(n) => if n > prev then n else prev
      case None => prev
  }

  lemma MaxIdSnoc(bs: seq<BookingRec>, i: nat)
    requires i < |bs|
    ensures MaxIdNumber(bs[..i + 1]) ==
      if IdNumber(bs[i].id).Some? && IdNumber(bs[i].id).value > MaxIdNumber(bs[..i])
      then IdNumber(bs[i].id).value else MaxIdNumber(bs[..i])
  {
    assert bs[..i + 1][..i] == bs[..i];
  }

  /** `f"GIC{next_id:04d}"` for `next_id = max_id + 1`. */
  function NextBookingId(bs: seq<BookingRec>): string
  {
    "GIC" + ZeroPadded(DecimalString(MaxIdNumber(bs) + 1), 4)
  }

  /** The new ID reads back as one more than the largest number in use. */
  lemma NextIdNumber(bs: seq<BookingRec>)
    ensures IdNumber(NextBookingId(bs)) == Some(MaxIdNumber(bs) + 1)
  {
    var digits := ZeroPadded(DecimalString(MaxIdNumber(bs) + 1), 4);
    ZeroPaddedRoundTrip(MaxIdNumber(bs) + 1, 4);
    var id := "GIC" + digits;
    assert id[..3] == "GIC" && id[3..] == digits;
  }

  /** The new ID is at least seven characters and numbered above every `GIC`
      number in use, so it belongs to no existing booking and gaps are not reused. */
  lemma NextIdFresh(bs: seq<BookingRec>)
    ensures |NextBookingId(bs)| >= 7
    ensures forall k :: 0 <= k < |bs| && IdNumber(bs[k].id).Some? ==>
      IdNumber(bs[k].id).value < IdNumber(NextBookingId(bs)).value
    ensures forall k :: 0 <= k < |bs| ==> bs[k].id != NextBookingId(bs)
  {
    NextIdNumber(bs);
  }

  /** An empty ledger starts at `GIC0001`. */
  lemma FirstBookingId()
    ensures NextBookingId([]) == "GIC0001"
  {
    var d := DecimalString(1);
    assert d == ['1'];
    var z := ZeroPadded(d, 4);
    assert |z| == 4 && z[3..] == d;
    assert z[3] == '1' && z[0] == '0' && z[1] == '0' && z[2] == '0';
    assert z == "0001";
  }

  /** `get_booking_id(movie)` */
  method GetBookingId(m: Movie) returns (id: string)
    ensures id == NextBookingId(m.ToRecord().bookings)
  {
    ghost var recs := m.ToRecord().bookings;
    var maxId := 0;
    for i := 0 to |m.bookings|
      invariant maxId == MaxIdNumber(recs[..i])
    {
      MaxIdSnoc(recs, i);
      var bid := m.bookings[i].id;
      assert recs[i].id == bid;
      if |bid| >= 3 && bid[..3] == "GIC" && IsDecimal(bid[3..]) {
        var num := DecimalValue(bid[3..]);
        if num > maxId {
          maxId := num;
        }
      }
    }
    assert recs[..|recs|] == recs;
    var nextId := maxId + 1;
    id := "GIC" + ZeroPadded(DecimalString(nextId), 4);
  }

  /** `confirm_reservation(movie, booking_id)`: the first booking with that ID
      becomes `"B"`; nothing else changes, and an unknown ID changes nothing. */
  method ConfirmReservation(m: Movie, bookingId: string)
    requires m.Valid()
    modifies m.bookings
    ensures m.bookings == old(m.bookings) && m.Valid()
    ensures m.ToRecord() == old(m.ToRecord()).(bookings := SetStatus(old(m.ToRecord().bookings), bookingId, Booked))
  {
    ghost var before := m.ToRecord();
    var b := m.GetBooking(bookingId);
    if b != null {
      ghost var i := FindFirst(before.bookings, bookingId).value;
      m.SetStatusAt(b, i, Booked);
      SetStatusFound(before.bookings, bookingId, i, Booked);
      assert m.ToRecord().bookings == SetStatus(before.bookings, bookingId, Booked);
      assert m.ToRecord() == before.(bookings := SetStatus(before.bookings, bookingId, Booked));
    } else {
      assert m.ToRecord() == before.(bookings := SetStatus(before.bookings, bookingId, Booked));
    }
  }
}
