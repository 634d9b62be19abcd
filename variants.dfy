/**
 * How the older `service` package relates to the canonical `services`
 * package: the canonical rules are strictly stronger, the two evaluators
 * agree on rooms that exist, and the two cancellations accept the same
 * rows but only the canonical one changes them.
 */
module Variants {
  import opened Booking
  import Availability
  import LegacyAvailability
  import Reservations
  import ReservationProperties
  import LegacyReservations
  import LegacyCancellation
  import opened LegacyExceptions

  /** Every date range the canonical rules accept, the older rules accept too. */
  lemma CanonicalDatesImplyLegacyDates(startDate: Day, endDate: Day, today: Day)
    requires Reservations.ValidateDates(startDate, endDate, today).None?
    ensures LegacyReservations.ValidateDates(startDate, endDate, today).None?
  {
  }

  /**
   * The older rules accept what the canonical ones reject as equal dates or
   * as starting today.
   */
  lemma LegacyAcceptsSameDayAndToday(day: Day, today: Day)
    requires day <= today + 30
    ensures LegacyReservations.ValidateDates(day, day, today).None?
    ensures Reservations.ValidateDates(day, day, today) == Some(Reservations.SameDates)
    ensures LegacyReservations.ValidateDates(today, today + 1, today).None?
    ensures Reservations.ValidateDates(today, today + 1, today) == Some(Reservations.StartsToday)
  {
    ReservationProperties.FirstFailingRuleWins(day, day, today);
    ReservationProperties.FirstFailingRuleWins(today, today + 1, today);
  }

  /**
   * On a room that exists the two evaluators give the same answer. On a room
   * that does not exist and has no ACTIVE reservation, the canonical one
   * fails while the older one reports it available.
   */
  lemma EvaluatorsAgreeOnExistingRooms(store: Store, rooms: set<int>, startDate: Day,
                                        roomId: int, systemToday: Day)
    ensures roomId in rooms ==>
              Availability.GetRoomAvailability(store, rooms, startDate, roomId, systemToday)
              == LegacyAvailability.GetRoomAvailability(store, startDate, roomId, systemToday)
    ensures roomId !in rooms && ActiveIds(store, roomId) == {} ==>
              Availability.GetRoomAvailability(store, rooms, startDate, roomId, systemToday)
              == Err(Availability.RoomNotFound)
              && LegacyAvailability.GetRoomAvailability(store, startDate, roomId, systemToday)
                 == Ok(Availability.RoomAvailability(true, systemToday + 1))
  {
  }

  /** Every request the canonical six rules accept passes the older four rules. */
  lemma CanonicalRequestImpliesLegacyRequest(store: Store, rooms: set<int>,
                                              startDate: Day, endDate: Day, roomId: int,
                                              today: Day, systemToday: Day)
    requires Reservations.ValidateReservation(store, rooms, startDate, endDate, roomId, today,
                                              systemToday).None?
    ensures LegacyReservations.ValidateReservationRequest(store, startDate, endDate, roomId, today,
                                                          systemToday).None?
  {
    EvaluatorsAgreeOnExistingRooms(store, rooms, startDate, roomId, systemToday);
  }

  /**
   * Whatever the canonical create books, the older create books too, as the
   * same row.
   */
  lemma CanonicalPlaceImpliesLegacyPlace(db: Reservations.Db, request: ReservationRequest, today: Day,
                                         systemToday: Day)
    requires Reservations.Place(db, request, today, systemToday).Ok?
    ensures LegacyReservations.Place(db.reservations, db.nextId, request, today, systemToday)
            == Ok(Reservations.Place(db, request, today, systemToday).value)
  {
    CanonicalRequestImpliesLegacyRequest(db.reservations, db.rooms, request.startDate, request.endDate,
                                         request.roomId, today, systemToday);
  }

  /**
   * The two cancellations accept exactly the same rows and fail for the same
   * reasons, but only the canonical one moves the row to CANCELLED: after the
   * older one the row is still ACTIVE.
   */
  lemma CancellationsAgreeButOnlyCanonicalCancels(db: Reservations.Db, reservationId: int)
    requires Reservations.ValidDb(db)
    ensures LegacyCancellation.CancelReservation(db.reservations, reservationId).None?
            <==> Reservations.Cancel(db, reservationId).Ok?
    ensures Reservations.Cancel(db, reservationId) == Err(Reservations.ReservationNotFound)
            <==> LegacyCancellation.CancelReservation(db.reservations, reservationId)
                 == Some(ReservationNotFound)
    ensures Reservations.Cancel(db, reservationId) == Err(Reservations.NotActive)
            <==> LegacyCancellation.CancelReservation(db.reservations, reservationId)
                 == Some(IllegalArgument(LegacyCancellation.NotActiveMessage))
    ensures Reservations.Cancel(db, reservationId).Ok? ==>
              Reservations.AfterSave(db, Reservations.Cancel(db, reservationId))
                .reservations[reservationId].status == Cancelled
              && db.reservations[reservationId].status == Active
  {
  }
}
