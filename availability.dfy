/**
 * The canonical availability evaluator (package `services`): a room is free
 * for a candidate start date unless its one ACTIVE reservation ends on or
 * after that date. With no ACTIVE reservation the room must exist.
 */
module Availability {
  import opened Booking

  /** RoomAvailabilityResponseDTO */
  datatype RoomAvailability = RoomAvailability(isAvailable: bool, closestAvailableStartDate: Day)

  /** The evaluator's failures. */
  datatype AvailabilityError =
    | RoomNotFound          // "No room found with the provided id"
    | NonUniqueActive       // the single-result store query found two ACTIVE rows

  /** `roomIsReserved`: the reservation still occupies the candidate start date. */
  predicate RoomIsReserved(startDate: Day, reservation: Reservation)
  {
    reservation.endDate == startDate || reservation.endDate > startDate
  }

  /** The private overload: availability against the room's ACTIVE reservation. */
  function AvailabilityAgainst(startDate: Day, reservation: Reservation): (r: RoomAvailability)
    ensures r.isAvailable <==> startDate > reservation.endDate
    ensures r.closestAvailableStartDate == reservation.endDate + 1
  {
    var closestAvailableStartDate := reservation.endDate + 1;
    if RoomIsReserved(startDate, reservation) then
      RoomAvailability(false, closestAvailableStartDate)
    else
      RoomAvailability(true, closestAvailableStartDate)
  }

  /**
   * The evaluator as a function of what the store knows: the room's ACTIVE
   * reservation if any, whether the room exists, the candidate start date, and
   * the wall-clock date `systemToday` (the source calls `LocalDate.now()` here,
   * not the injected clock).
   */
  function Evaluate(active: Option<Reservation>, roomExists: bool, startDate: Day, systemToday: Day)
    : (r: Result<RoomAvailability, AvailabilityError>)
    ensures r.Err? <==> active.None? && !roomExists
    ensures r.Err? ==> r.error == RoomNotFound
    ensures r.Ok? && active.Some? ==>
              (r.value.isAvailable <==> startDate > active.value.endDate)
              && r.value.closestAvailableStartDate == active.value.endDate + 1
    ensures r.Ok? && active.None? ==>
              r.value.isAvailable && r.value.closestAvailableStartDate == systemToday + 1
  {
    match active
    case Some(reservation) => Ok(AvailabilityAgainst(startDate, reservation))
    case None =>
      if !roomExists then Err(RoomNotFound)
      else Ok(RoomAvailability(true, systemToday + 1))
  }

  /**
   * The public overload `getRoomAvailability(startDate, roomId)`: looks up the
   * room's ACTIVE reservation, and only when there is none asks whether the
   * room exists. It reads the store and writes nothing.
   */
  function GetRoomAvailability(store: Store, rooms: set<int>, startDate: Day, roomId: int, systemToday: Day)
    : (r: Result<RoomAvailability, AvailabilityError>)
    ensures r == Err(NonUniqueActive) <==> FindActiveByRoom(store, roomId) == Many
  {
    match FindActiveByRoom(store, roomId)
    case NoActive => Evaluate(None, roomId in rooms, startDate, systemToday)
    case One(reservation) => Evaluate(Some(reservation), roomId in rooms, startDate, systemToday)
    case Many => Err(NonUniqueActive)
  }

  /**
   * With an ACTIVE reservation ending on E, the room is unavailable exactly for
   * candidate dates on or before E, and the nearest date is E + 1 either way.
   */
  lemma ActiveReservationDecides(store: Store, rooms: set<int>, startDate: Day, roomId: int,
                                 systemToday: Day, e: Day)
    requires FindActiveByRoom(store, roomId).One?
    requires FindActiveByRoom(store, roomId).reservation.endDate == e
    ensures GetRoomAvailability(store, rooms, startDate, roomId, systemToday).Ok?
    ensures !GetRoomAvailability(store, rooms, startDate, roomId, systemToday).value.isAvailable
            <==> startDate <= e
    ensures GetRoomAvailability(store, rooms, startDate, roomId, systemToday).value.closestAvailableStartDate
            == e + 1
  {
  }

  /**
   * With no ACTIVE reservation the answer does not depend on the candidate
   * date: the room is available from systemToday + 1 if it exists, and
   * otherwise the room is not found.
   */
  lemma NoActiveReservationDecides(store: Store, rooms: set<int>, startDate: Day, roomId: int,
                                   systemToday: Day)
    requires ActiveIds(store, roomId) == {}
    ensures roomId in rooms ==>
              GetRoomAvailability(store, rooms, startDate, roomId, systemToday)
              == Ok(RoomAvailability(true, systemToday + 1))
    ensures roomId !in rooms ==>
              GetRoomAvailability(store, rooms, startDate, roomId, systemToday) == Err(RoomNotFound)
  {
  }

  /** Room existence matters only when the room has no ACTIVE reservation. */
  lemma ExistenceConsultedOnlyWithoutActive(store: Store, rooms1: set<int>, rooms2: set<int>,
                                            startDate: Day, roomId: int, systemToday: Day)
    requires ActiveIds(store, roomId) != {}
    ensures GetRoomAvailability(store, rooms1, startDate, roomId, systemToday)
            == GetRoomAvailability(store, rooms2, startDate, roomId, systemToday)
  {
  }

  /**
   * Against an ACTIVE reservation, the nearest available date is the least
   * date for which the room is available: every later date is available and
   * every earlier one is not.
   */
  lemma {:induction false} NearestIsLeastAvailable(startDate: Day, reservation: Reservation)
    ensures var nearest := AvailabilityAgainst(startDate, reservation).closestAvailableStartDate;
            (AvailabilityAgainst(startDate, reservation).isAvailable <==> startDate >= nearest)
            && AvailabilityAgainst(nearest, reservation).isAvailable
            && !AvailabilityAgainst(nearest - 1, reservation).isAvailable
  {
  }
}
