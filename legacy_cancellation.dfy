/**
 * The older cancellation service (package `service`): it finds the row and
 * checks that it is ACTIVE, and then returns without changing or saving it.
 */
module LegacyCancellation {
  import opened Booking
  import opened LegacyExceptions

  const NotActiveMessage: string := "Reservation is not active, cannot be cancelled"

  /**
   * `cancelReservation`: the failure it throws, or None when it returns
   * normally. It takes the store by value and gives nothing back to save.
   */
  function CancelReservation(store: Store, reservationId: int): (r: Option<LegacyError>)
    ensures r.None? <==> reservationId in store && store[reservationId].status == Active
    ensures reservationId !in store ==> r == Some(ReservationNotFound)
    ensures reservationId in store && store[reservationId].status != Active ==>
              r == Some(IllegalArgument(NotActiveMessage))
  {
    if reservationId !in store then Some(ReservationNotFound)
    else
      var reservation := store[reservationId];
      if reservation.status != Active then Some(IllegalArgument(NotActiveMessage))
      else None
  }
}
