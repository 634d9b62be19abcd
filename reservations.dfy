/**
 * The canonical reservation rule set and lifecycle (package `services`):
 * six date and room rules checked in a fixed order, the first failure
 * winning, and create / update / cancel over the reservation store.
 */
module Reservations {
  import opened Booking
  import Availability

  const MaximumReservationDaysAllowed: int := 3
  const MaximumFutureDaysAllowed: int := 30

  /** The failures of the canonical service, one per `ReservationException` message. */
  datatype ReservationError =
    | SameDates
    | StartsToday
    | StartAfterEnd
    | TooLong
    | TooFarInFuture
    | RoomAlreadyReserved
    | RoomNotFound
    | UserNotFound
    | ReservationNotFound
    | NotActive
    | NonUniqueActive

  /** The user-facing message carried by each failure. */
  function Message(e: ReservationError): string
  {
    match e
    case SameDates => "The start and end date cannot be the same"
    case StartsToday => "Reservation cannot start today"
    case StartAfterEnd => "The start date cannot be after the end date"
    case TooLong => "Reservation period cannot be greater than 3 days"
    case TooFarInFuture => "Reservation cannot be more than 30 days into the future"
    case RoomAlreadyReserved => "Room is already reserved in the provided period"
    case RoomNotFound => "No room found with the provided id"
    case UserNotFound => "No user found with the provided id"
    case ReservationNotFound => "No reservation found with the given id"
    case NotActive => "Reservation must be active"
    case NonUniqueActive => "More than one ACTIVE reservation found for the room"
  }

  // ---------------------------------------------------------------------
  // The rules. Each returns the failure it raises, or None when it passes.
  // ---------------------------------------------------------------------

  function ValidateStartDateAndEndDateAreNotEqual(startDate: Day, endDate: Day): Option<ReservationError>
  {
    if startDate == endDate then Some(SameDates) else None
  }

  function ValidateStartDateNotToday(startDate: Day, today: Day): Option<ReservationError>
  {
    if today == startDate then Some(StartsToday) else None
  }

  function ValidateStartDateNotAfterEndDate(startDate: Day, endDate: Day): Option<ReservationError>
  {
    if startDate > endDate then Some(StartAfterEnd) else None
  }

  function ValidateReservationDuration(startDate: Day, endDate: Day): Option<ReservationError>
  {
    if endDate - startDate >= MaximumReservationDaysAllowed then Some(TooLong) else None
  }

  function ValidateReservationNotAfterMaximumAllowedStartDate(startDate: Day, today: Day)
    : Option<ReservationError>
  {
    var limitDate := today + MaximumFutureDaysAllowed;
    if startDate > limitDate then Some(TooFarInFuture) else None
  }

  /** `validateRoomNotReserved`, with the evaluator's own failures passed on. */
  function ValidateRoomNotReserved(store: Store, rooms: set<int>, startDate: Day, roomId: int,
                                   systemToday: Day): Option<ReservationError>
  {
    match Availability.GetRoomAvailability(store, rooms, startDate, roomId, systemToday)
    case Err(e) => if e.RoomNotFound? then Some(RoomNotFound) else Some(NonUniqueActive)
    case Ok(availability) => if !availability.isAvailable then Some(RoomAlreadyReserved) else None
  }

  /**
   * The five date rules in the source's order; the first failing one wins.
   * Together they accept exactly a stay of one or two nights that does not
   * start today and starts at most 30 days from today. A start date in the
   * past is not rejected.
   */
  function ValidateDates(startDate: Day, endDate: Day, today: Day): (r: Option<ReservationError>)
    ensures r.None? <==>
              1 <= endDate - startDate <= 2 && startDate != today && startDate <= today + 30
    ensures r.Some? ==> r.value in {SameDates, StartsToday, StartAfterEnd, TooLong, TooFarInFuture}
  {
    var checks := [
      ValidateStartDateAndEndDateAreNotEqual(startDate, endDate),
      ValidateStartDateNotToday(startDate, today),
      ValidateStartDateNotAfterEndDate(startDate, endDate),
      ValidateReservationDuration(startDate, endDate),
      ValidateReservationNotAfterMaximumAllowedStartDate(startDate, today)
    ];
    assert (forall i :: 0 <= i < |checks| ==> checks[i].None?) <==>
             checks[0].None? && checks[1].None? && checks[2].None? && checks[3].None? && checks[4].None?;
    FirstFailure(checks)
  }

  /**
   * The six rules of `validateNewReservationRequest` (and of an update, with
   * the reservation's own room): the date rules first, the room last.
   */
  function ValidateReservation(store: Store, rooms: set<int>, startDate: Day, endDate: Day,
                               roomId: int, today: Day, systemToday: Day): (r: Option<ReservationError>)
    ensures ValidateDates(startDate, endDate, today).Some? ==> r == ValidateDates(startDate, endDate, today)
    ensures r.None? <==>
              ValidateDates(startDate, endDate, today).None?
              && Availability.GetRoomAvailability(store, rooms, startDate, roomId, systemToday).Ok?
              && Availability.GetRoomAvailability(store, rooms, startDate, roomId, systemToday).value.isAvailable
    ensures ValidateDates(startDate, endDate, today).None? ==>
              var availability := Availability.GetRoomAvailability(store, rooms, startDate, roomId, systemToday);
              && (availability.Ok? && !availability.value.isAvailable ==> r == Some(RoomAlreadyReserved))
              && (availability == Err(Availability.RoomNotFound) ==> r == Some(RoomNotFound))
              && (availability == Err(Availability.NonUniqueActive) ==> r == Some(NonUniqueActive))
  {
    match ValidateDates(startDate, endDate, today)
    case Some(e) => Some(e)
    case None => ValidateRoomNotReserved(store, rooms, startDate, roomId, systemToday)
  }

  // ---------------------------------------------------------------------
  // The store the service works over, and its operations as functions.
  // ---------------------------------------------------------------------

  /** Reservations, rooms and users as the repositories hold them; `nextId` is the next generated id. */
  datatype Db = Db(reservations: Store, rooms: set<int>, users: set<int>, nextId: int)

  /** Rows are stored under their ids and every id was generated before. */
  ghost predicate ValidDb(db: Db)
  {
    WellFormed(db.reservations) && forall id :: id in db.reservations ==> id < db.nextId
  }

  /** ReservationUpdateRequestDTO */
  datatype UpdateRequest = UpdateRequest(reservationId: int, startDate: Day, endDate: Day)

  /** `getReservation`: the stored row, or "No reservation found with the given id". */
  function GetReservation(store: Store, reservationId: int): (r: Result<Reservation, ReservationError>)
    ensures r.Ok? <==> reservationId in store
    ensures r.Ok? ==> r.value == store[reservationId]
    ensures r.Err? ==> r.error == ReservationNotFound
  {
    if reservationId in store then Ok(store[reservationId]) else Err(ReservationNotFound)
  }

  /** `reservationRepository.save`: the row is written under its id. */
  function Save(db: Db, reservation: Reservation): (db': Db)
    ensures db'.reservations.Keys == db.reservations.Keys + {reservation.id}
    ensures db'.reservations[reservation.id] == reservation
    ensures forall id :: id in db.reservations && id != reservation.id ==>
              db'.reservations[id] == db.reservations[id]
    ensures db'.rooms == db.rooms && db'.users == db.users && db'.nextId == db.nextId
  {
    db.(reservations := db.reservations[reservation.id := reservation])
  }

  /**
   * `placeReservation`: validate, resolve the room and then the user, and
   * build one ACTIVE row carrying the request's dates under a fresh id.
   */
  function Place(db: Db, request: ReservationRequest, today: Day, systemToday: Day)
    : (r: Result<Reservation, ReservationError>)
    ensures r.Ok? <==>
              ValidateReservation(db.reservations, db.rooms, request.startDate, request.endDate,
                                  request.roomId, today, systemToday).None?
              && request.roomId in db.rooms && request.userId in db.users
    ensures r.Ok? ==> r.value == Reservation(db.nextId, request.startDate, request.endDate, Active,
                                             request.roomId, request.userId)
    ensures var invalid := ValidateReservation(db.reservations, db.rooms, request.startDate,
                                               request.endDate, request.roomId, today, systemToday);
            invalid.Some? ==> r == Err(invalid.value)
  {
    var invalid := ValidateReservation(db.reservations, db.rooms, request.startDate, request.endDate,
                                       request.roomId, today, systemToday);
    if invalid.Some? then Err(invalid.value)
    else if request.roomId !in db.rooms then Err(RoomNotFound)
    else if request.userId !in db.users then Err(UserNotFound)
    else Ok(Reservation(db.nextId, request.startDate, request.endDate, Active,
                        request.roomId, request.userId))
  }

  /** The store after `placeReservation`: the new row saved once, the id generator advanced. */
  function AfterPlace(db: Db, r: Result<Reservation, ReservationError>): Db
  {
    if r.Ok? then Save(db, r.value).(nextId := db.nextId + 1) else db
  }

  /**
   * `updateReservation`: the row must exist and be ACTIVE; the six rules then
   * run on the new dates with the row's own room; only the dates change.
   */
  function Update(db: Db, request: UpdateRequest, today: Day, systemToday: Day)
    : (r: Result<Reservation, ReservationError>)
    ensures r.Ok? ==> request.reservationId in db.reservations
    ensures r.Ok? ==> r.value == db.reservations[request.reservationId]
                                   .(startDate := request.startDate, endDate := request.endDate)
  {
    match GetReservation(db.reservations, request.reservationId)
    case Err(e) => Err(e)
    case Ok(reservation) =>
      if reservation.status != Active then Err(NotActive)
      else
        var invalid := ValidateReservation(db.reservations, db.rooms, request.startDate, request.endDate,
                                           reservation.roomId, today, systemToday);
        if invalid.Some? then Err(invalid.value)
        else Ok(reservation.(startDate := request.startDate, endDate := request.endDate))
  }

  /** `cancelReservation`: an existing ACTIVE row becomes CANCELLED. */
  function Cancel(db: Db, reservationId: int): (r: Result<Reservation, ReservationError>)
    ensures r.Ok? <==> reservationId in db.reservations && db.reservations[reservationId].status == Active
    ensures r.Ok? ==> r.value == db.reservations[reservationId].(status := Cancelled)
    ensures reservationId !in db.reservations ==> r == Err(ReservationNotFound)
    ensures reservationId in db.reservations && db.reservations[reservationId].status != Active ==>
              r == Err(NotActive)
  {
    match GetReservation(db.reservations, reservationId)
    case Err(e) => Err(e)
    case Ok(reservation) =>
      if reservation.status != Active then Err(NotActive)
      else Ok(reservation.(status := Cancelled))
  }

  /** The store after update or cancel: the changed row saved once. */
  function AfterSave(db: Db, r: Result<Reservation, ReservationError>): Db
  {
    if r.Ok? then Save(db, r.value) else db
  }

  // ---------------------------------------------------------------------
  // The service object over the repositories.
  // ---------------------------------------------------------------------

  class ReservationService {
    var reservations: Store
    var rooms: set<int>
    var users: set<int>
    var nextId: int

    function State(): Db
      reads this
    {
      Db(reservations, rooms, users, nextId)
    }

    ghost predicate Valid()
      reads this
    {
      ValidDb(State())
    }

    constructor (rooms: set<int>, users: set<int>)
      ensures Valid()
      ensures State() == Db(map[], rooms, users, 1)
    {
      this.reservations := map[];
      this.rooms := rooms;
      this.users := users;
      this.nextId := 1;
    }

    method PlaceReservation(request: ReservationRequest, today: Day, systemToday: Day)
      returns (r: Result<Reservation, ReservationError>)
      requires Valid()
      modifies this
      ensures Valid()
      ensures r == Place(old(State()), request, today, systemToday)
      ensures State() == AfterPlace(old(State()), r)
    {
      var invalid := ValidateReservation(reservations, rooms, request.startDate, request.endDate,
                                         request.roomId, today, systemToday);
      if invalid.Some? {
        return Err(invalid.value);
      }
      var reservation := Reservation(0, request.startDate, request.endDate, Active, 0, 0);
      if request.roomId !in rooms {
        return Err(RoomNotFound);
      }
      reservation := reservation.(roomId := request.roomId);
      if request.userId !in users {
        return Err(UserNotFound);
      }
      reservation := reservation.(userId := request.userId, id := nextId);
      reservations := reservations[reservation.id := reservation];
      nextId := nextId + 1;
      r := Ok(reservation);
    }

    method UpdateReservation(request: UpdateRequest, today: Day, systemToday: Day)
      returns (r: Result<Reservation, ReservationError>)
      requires Valid()
      modifies this
      ensures Valid()
      ensures r == Update(old(State()), request, today, systemToday)
      ensures State() == AfterSave(old(State()), r)
    {
      if request.reservationId !in reservations {
        return Err(ReservationNotFound);
      }
      var reservation := reservations[request.reservationId];
      if reservation.status != Active {
        return Err(NotActive);
      }
      var invalid := ValidateReservation(reservations, rooms, request.startDate, request.endDate,
                                         reservation.roomId, today, systemToday);
      if invalid.Some? {
        return Err(invalid.value);
      }
      reservation := reservation.(startDate := request.startDate);
      reservation := reservation.(endDate := request.endDate);
      reservations := reservations[reservation.id := reservation];
      r := Ok(reservation);
    }

    method CancelReservation(reservationId: int) returns (r: Result<Reservation, ReservationError>)
      requires Valid()
      modifies this
      ensures Valid()
      ensures r == Cancel(old(State()), reservationId)
      ensures State() == AfterSave(old(State()), r)
    {
      if reservationId !in reservations {
        return Err(ReservationNotFound);
      }
      var reservation := reservations[reservationId];
      if reservation.status != Active {
        return Err(NotActive);
      }
      reservation := reservation.(status := Cancelled);
      reservations := reservations[reservation.id := reservation];
      r := Ok(reservation);
    }
  }
}
