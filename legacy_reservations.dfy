/**
 * The exceptions of the older service package (package `exception` plus
 * `IllegalArgumentException`).
 */
module LegacyExceptions {
  datatype LegacyError =
    | IllegalArgument(message: string)      // IllegalArgumentException
    | ReservationTooLong                    // ReservationTooLongException
    | ReservationAfterAllowedMaximum        // ReservationAfterAllowedMaximumException
    | RoomAlreadyReserved                   // RoomAlreadyReservedException
    | ReservationNotFound                   // ReservationNotFoundException
    | NonUniqueActive                       // the single-result store query found two ACTIVE rows
}

/**
 * The older reservation service (package `service`): three date rules and
 * the room rule, then an ACTIVE row whose room and user are set by reference
 * without checking that they exist.
 */
module LegacyReservations {
  import opened Booking
  import Availability
  import LegacyAvailability
  import opened LegacyExceptions

  const MaximumReservationDaysAllowed: int := 3
  const MaximumFutureDaysAllowed: int := 30
  const StartAfterEndMessage: string := "The start date cannot be after the end date"

  function ValidateStartDateNotAfterEndDate(startDate: Day, endDate: Day): Option<LegacyError>
  {
    if startDate > endDate then Some(IllegalArgument(StartAfterEndMessage)) else None
  }

  function ValidateReservationDuration(startDate: Day, endDate: Day): Option<LegacyError>
  {
    if endDate - startDate >= MaximumReservationDaysAllowed then Some(ReservationTooLong) else None
  }

  function ValidateReservationStartDateIsBeforeMaxAllowedDate(startDate: Day, today: Day): Option<LegacyError>
  {
    var limitDate := today + MaximumFutureDaysAllowed;
    if startDate > limitDate then Some(ReservationAfterAllowedMaximum) else None
  }

  /** `validateRoomNotReserved` against the older evaluator. */
  function ValidateRoomNotReserved(store: Store, startDate: Day, roomId: int, systemToday: Day)
    : Option<LegacyError>
  {
    match LegacyAvailability.GetRoomAvailability(store, startDate, roomId, systemToday)
    case Err(_) => Some(NonUniqueActive)
    case Ok(availability) => if !availability.isAvailable then Some(RoomAlreadyReserved) else None
  }

  /**
   * The three date rules in order, the first failure winning. They accept a
   * stay of zero, one or two nights starting at most 30 days from today: a
   * stay that starts and ends on the same day, or starts today, passes.
   */
  function ValidateDates(startDate: Day, endDate: Day, today: Day): (r: Option<LegacyError>)
    ensures r.None? <==> 0 <= endDate - startDate <= 2 && startDate <= today + 30
  {
    var checks := [
      ValidateStartDateNotAfterEndDate(startDate, endDate),
      ValidateReservationDuration(startDate, endDate),
      ValidateReservationStartDateIsBeforeMaxAllowedDate(startDate, today)
    ];
    assert (forall i :: 0 <= i < |checks| ==> checks[i].None?) <==>
             checks[0].None? && checks[1].None? && checks[2].None?;
    FirstFailure(checks)
  }

  /**
   * The older date rules run in the order start after end, duration, 30-day
   * limit, and the first failure decides the exception.
   */
  lemma {:induction false} FirstFailingRuleWins(startDate: Day, endDate: Day, today: Day)
    ensures startDate > endDate ==>
              ValidateDates(startDate, endDate, today) == Some(IllegalArgument(StartAfterEndMessage))
    ensures startDate <= endDate && endDate - startDate >= 3 ==>
              ValidateDates(startDate, endDate, today) == Some(ReservationTooLong)
    ensures 0 <= endDate - startDate <= 2 && startDate > today + 30 ==>
              ValidateDates(startDate, endDate, today) == Some(ReservationAfterAllowedMaximum)
  {
    var checks := [
      ValidateStartDateNotAfterEndDate(startDate, endDate),
      ValidateReservationDuration(startDate, endDate),
      ValidateReservationStartDateIsBeforeMaxAllowedDate(startDate, today)
    ];
    var r := ValidateDates(startDate, endDate, today);
    assert r == FirstFailure(checks);
    assert checks[0].Some? <==> startDate > endDate;
    assert checks[1].Some? <==> endDate - startDate >= 3;
    if r.Some? {
      var i :| 0 <= i < |checks| && checks[i] == r && forall j :: 0 <= j < i ==> checks[j].None?;
      assert i == 0 || i == 1 || i == 2;
    }
  }

  /** `validateReservationRequest`: the date rules, then the room. */
  function ValidateReservationRequest(store: Store, startDate: Day, endDate: Day, roomId: int,
                                      today: Day, systemToday: Day): (r: Option<LegacyError>)
    ensures ValidateDates(startDate, endDate, today).Some? ==> r == ValidateDates(startDate, endDate, today)
    ensures r.None? <==>
              ValidateDates(startDate, endDate, today).None?
              && LegacyAvailability.GetRoomAvailability(store, startDate, roomId, systemToday).Ok?
              && LegacyAvailability.GetRoomAvailability(store, startDate, roomId, systemToday).value.isAvailable
    ensures ValidateDates(startDate, endDate, today).None? ==>
              var availability := LegacyAvailability.GetRoomAvailability(store, startDate, roomId, systemToday);
              && (availability.Ok? && !availability.value.isAvailable ==> r == Some(RoomAlreadyReserved))
              && (availability.Err? ==> r == Some(NonUniqueActive))
  {
    match ValidateDates(startDate, endDate, today)
    case Some(e) => Some(e)
    case None => ValidateRoomNotReserved(store, startDate, roomId, systemToday)
  }

  /**
   * `placeReservation`: after validation, an ACTIVE row with the request's
   * dates, room and user, stored under the next generated id.
   */
  function Place(store: Store, nextId: int, request: ReservationRequest, today: Day, systemToday: Day)
    : (r: Result<Reservation, LegacyError>)
    ensures r.Ok? <==> ValidateReservationRequest(store, request.startDate, request.endDate,
                                                  request.roomId, today, systemToday).None?
    ensures r.Err? ==> r.error == ValidateReservationRequest(store, request.startDate, request.endDate,
                                                             request.roomId, today, systemToday).value
    ensures r.Ok? ==> r.value == Reservation(nextId, request.startDate, request.endDate, Active,
                                             request.roomId, request.userId)
  {
    var invalid := ValidateReservationRequest(store, request.startDate, request.endDate, request.roomId,
                                              today, systemToday);
    if invalid.Some? then Err(invalid.value)
    else Ok(Reservation(nextId, request.startDate, request.endDate, Active, request.roomId, request.userId))
  }

  class LegacyReservationService {
    var reservations: Store
    var nextId: int

    ghost predicate Valid()
      reads this
    {
      WellFormed(reservations) && forall id :: id in reservations ==> id < nextId
    }

    constructor ()
      ensures Valid() && reservations == map[] && nextId == 1
    {
      reservations := map[];
      nextId := 1;
    }

    /** Returns the row that `save` stored, with its generated id. */
    method PlaceReservation(request: ReservationRequest, today: Day, systemToday: Day)
      returns (r: Result<Reservation, LegacyError>)
      requires Valid()
      modifies this
      ensures Valid()
      ensures r == Place(old(reservations), old(nextId), request, today, systemToday)
      ensures r.Ok? ==> r.value.id !in old(reservations)
                        && reservations == old(reservations)[r.value.id := r.value]
                        && nextId == old(nextId) + 1
      ensures r.Err? ==> reservations == old(reservations) && nextId == old(nextId)
    {
      var invalid := ValidateReservationRequest(reservations, request.startDate, request.endDate,
                                                request.roomId, today, systemToday);
      if invalid.Some? {
        return Err(invalid.value);
      }
      var reservation := Reservation(0, request.startDate, request.endDate, Active, 0, 0);
      reservation := reservation.(roomId := request.roomId);
      reservation := reservation.(userId := request.userId);
      reservation := reservation.(id := nextId);
      reservations := reservations[reservation.id := reservation];
      nextId := nextId + 1;
      r := Ok(reservations[reservation.id]);
    }
  }

  /** A stay that starts and ends on the same day passes the older date rules. */
  lemma SameDayStayPasses(day: Day, today: Day)
    requires day <= today + 30
    ensures ValidateDates(day, day, today) == None
  {
  }

  /**
   * Room and user are never looked up: with no ACTIVE reservation for the
   * room and valid dates, any room and user ids are booked.
   */
  lemma PlaceNeverChecksRoomOrUser(store: Store, nextId: int, request: ReservationRequest,
                                   today: Day, systemToday: Day)
    requires ActiveIds(store, request.roomId) == {}
    requires ValidateDates(request.startDate, request.endDate, today).None?
    ensures Place(store, nextId, request, today, systemToday)
            == Ok(Reservation(nextId, request.startDate, request.endDate, Active,
                              request.roomId, request.userId))
  {
    LegacyAvailability.NoActiveReservationAlwaysAvailable(store, request.startDate, request.roomId,
                                                          systemToday);
  }
}
