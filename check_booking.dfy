/** Status transitions on an existing booking (`unbook_reservation`,
    `view_booking` in check_booking.py). */
module CheckBooking {
  import opened MovieClasses
  import opened Reservations

  /** `unbook_reservation(movie, booking_id)`: the first booking with that ID
      goes back to `"R"`; nothing else changes, and an unknown ID changes nothing. */
  method UnbookReservation(m: Movie, bookingId: string)
    requires m.Valid()
    modifies m.bookings
    ensures m.bookings == old(m.bookings) && m.Valid()
    ensures m.ToRecord() == old(m.ToRecord()).(bookings := SetStatus(old(m.ToRecord().bookings), bookingId, Reserved))
  {
    ghost var before := m.ToRecord();
    var booking := m.GetBooking(bookingId);
    if booking != null {
      ghost var i := FindFirst(before.bookings, bookingId).value;
      m.SetStatusAt(booking, i, Reserved);
      SetStatusFound(before.bookings, bookingId, i, Reserved);
      assert m.ToRecord().bookings == SetStatus(before.bookings, bookingId, Reserved);
      assert m.ToRecord() == before.(bookings := SetStatus(before.bookings, bookingId, Reserved));
    } else {
      assert m.ToRecord() == before.(bookings := SetStatus(before.bookings, bookingId, Reserved));
    }
  }

  /** `view_booking(movie, booking_id)`: unbook, then confirm again. The booking
      ends up `"B"` with its seats unchanged, and an unknown ID changes nothing. */
  method ViewBooking(m: Movie, bookingId: string)
    requires m.Valid()
    modifies m.bookings
    ensures m.bookings == old(m.bookings) && m.Valid()
    ensures m.ToRecord() == old(m.ToRecord()).(bookings := SetStatus(old(m.ToRecord().bookings), bookingId, Booked))
  {
    ghost var before := m.ToRecord();
    UnbookReservation(m, bookingId);
    ConfirmReservation(m, bookingId);
    SetStatusTwice(before.bookings, bookingId, Reserved, Booked);
  }
}
