/**
 * The older availability evaluator (package `service`): the same
 * "occupied up to and including the end date" rule, but with no ACTIVE
 * reservation the room is simply available; its existence is never asked.
 */
module LegacyAvailability {
  import opened Booking
  import opened Availability

  // The private overload and `roomIsReserved` of the older evaluator are the
  // same code as the canonical ones, so Availability.AvailabilityAgainst is
  // used for both.

  /**
   * The older evaluator as a function of the room's ACTIVE reservation, the
   * candidate date and the wall-clock date. It never fails.
   */
  function Evaluate(active: Option<Reservation>, startDate: Day, systemToday: Day): (r: RoomAvailability)
    ensures active.Some? ==>
              (r.isAvailable <==> startDate > active.value.endDate)
              && r.closestAvailableStartDate == active.value.endDate + 1
    ensures active.None? ==> r.isAvailable && r.closestAvailableStartDate == systemToday + 1
  {
    match active
    case Some(reservation) => AvailabilityAgainst(startDate, reservation)
    case None => RoomAvailability(true, systemToday + 1)
  }

  /**
   * The public overload: only the store's single-result lookup can fail, and
   * the room table is not consulted at all.
   */
  function GetRoomAvailability(store: Store, startDate: Day, roomId: int, systemToday: Day)
    : (r: Result<RoomAvailability, AvailabilityError>)
    ensures r.Err? <==> FindActiveByRoom(store, roomId) == Many
    ensures r.Err? ==> r.error == NonUniqueActive
  {
    match FindActiveByRoom(store, roomId)
    case NoActive => Ok(Evaluate(None, startDate, systemToday))
    case One(reservation) => Ok(Evaluate(Some(reservation), startDate, systemToday))
    case Many => Err(NonUniqueActive)
  }

  /** With an ACTIVE reservation ending on E: unavailable exactly on or before E, nearest E + 1. */
  lemma ActiveReservationDecides(store: Store, startDate: Day, roomId: int, systemToday: Day, e: Day)
    requires FindActiveByRoom(store, roomId).One?
    requires FindActiveByRoom(store, roomId).reservation.endDate == e
    ensures GetRoomAvailability(store, startDate, roomId, systemToday).Ok?
    ensures !GetRoomAvailability(store, startDate, roomId, systemToday).value.isAvailable <==> startDate <= e
    ensures GetRoomAvailability(store, startDate, roomId, systemToday).value.closestAvailableStartDate == e + 1
  {
  }

  /** With no ACTIVE reservation every room id, known or not, is available from systemToday + 1. */
  lemma NoActiveReservationAlwaysAvailable(store: Store, startDate: Day, roomId: int, systemToday: Day)
    requires ActiveIds(store, roomId) == {}
    ensures GetRoomAvailability(store, startDate, roomId, systemToday)
            == Ok(RoomAvailability(true, systemToday + 1))
  {
  }
}
