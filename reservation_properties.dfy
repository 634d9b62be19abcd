/**
 * What the canonical rule set and lifecycle promise, proved about the
 * functions of module Reservations.
 */
module ReservationProperties {
  import opened Booking
  import Availability
  import opened Reservations

  /** Epoch days of the dates the service's own examples use. */
  const Jan01_2023: Day := 19358
  const Jan02_2023: Day := 19359
  const Jan04_2023: Day := 19361
  const Jan05_2023: Day := 19362
  const Jan07_2023: Day := 19364
  const Jan08_2023: Day := 19365
  const Jan10_2023: Day := 19367
  const Jan12_2023: Day := 19369
  const Feb01_2023: Day := 19389
  const Feb02_2023: Day := 19390

  // ---------------------------------------------------------------------
  // The date rules
  // ---------------------------------------------------------------------

  /**
   * The date rules run in a fixed order and the first one that fails decides
   * the failure: equal dates, start today, start after end, duration,
   * 30-day limit.
   */
  lemma {:induction false} FirstFailingRuleWins(startDate: Day, endDate: Day, today: Day)
    ensures startDate == endDate ==>
              ValidateDates(startDate, endDate, today) == Some(SameDates)
    ensures startDate != endDate && startDate == today ==>
              ValidateDates(startDate, endDate, today) == Some(StartsToday)
    ensures startDate > endDate && startDate != today ==>
              ValidateDates(startDate, endDate, today) == Some(StartAfterEnd)
    ensures startDate < endDate && startDate != today && endDate - startDate >= 3 ==>
              ValidateDates(startDate, endDate, today) == Some(TooLong)
    ensures 1 <= endDate - startDate <= 2 && startDate != today && startDate > today + 30 ==>
              ValidateDates(startDate, endDate, today) == Some(TooFarInFuture)
  {
    var checks := [
      ValidateStartDateAndEndDateAreNotEqual(startDate, endDate),
      ValidateStartDateNotToday(startDate, today),
      ValidateStartDateNotAfterEndDate(startDate, endDate),
      ValidateReservationDuration(startDate, endDate),
      ValidateReservationNotAfterMaximumAllowedStartDate(startDate, today)
    ];
    var r := ValidateDates(startDate, endDate, today);
    assert r == FirstFailure(checks);
    assert checks[0].Some? <==> startDate == endDate;
    assert checks[1].Some? <==> startDate == today;
    assert checks[2].Some? <==> startDate > endDate;
    assert checks[3].Some? <==> endDate - startDate >= 3;
    if r.Some? {
      var i :| 0 <= i < |checks| && checks[i] == r && forall j :: 0 <= j < i ==> checks[j].None?;
      assert i == 0 || i == 1 || i == 2 || i == 3 || i == 4;
    }
  }

  /** The duration limit is three nights exclusive: 2023-01-01 to 2023-01-04 is too long. */
  lemma ThreeNightStayIsTooLong(today: Day)
    requires today != Jan01_2023
    ensures ValidateDates(Jan01_2023, Jan04_2023, today) == Some(TooLong)
    ensures Message(ValidateDates(Jan01_2023, Jan04_2023, today).value)
            == "Reservation period cannot be greater than 3 days"
  {
    FirstFailingRuleWins(Jan01_2023, Jan04_2023, today);
  }

  /** With today 2023-01-01, a stay starting 2023-02-01 is too far ahead; 30 days ahead is not. */
  lemma ThirtyDayLimit()
    ensures ValidateDates(Feb01_2023, Feb02_2023, Jan01_2023) == Some(TooFarInFuture)
    ensures Message(ValidateDates(Feb01_2023, Feb02_2023, Jan01_2023).value)
            == "Reservation cannot be more than 30 days into the future"
    ensures ValidateDates(Jan01_2023 + 30, Jan01_2023 + 31, Jan01_2023) == None
  {
    FirstFailingRuleWins(Feb01_2023, Feb02_2023, Jan01_2023);
  }

  /** 2023-01-02 to 2023-01-01 starts after it ends. */
  lemma StartAfterEndExample(today: Day)
    requires today != Jan02_2023
    ensures ValidateDates(Jan02_2023, Jan01_2023, today) == Some(StartAfterEnd)
    ensures Message(ValidateDates(Jan02_2023, Jan01_2023, today).value)
            == "The start date cannot be after the end date"
  {
    FirstFailingRuleWins(Jan02_2023, Jan01_2023, today);
  }

  /** The service itself does not reject a start date in the past. */
  lemma PastStartIsNotRejected(startDate: Day, endDate: Day, today: Day)
    requires startDate < today && 1 <= endDate - startDate <= 2
    ensures ValidateDates(startDate, endDate, today) == None
  {
  }

  // ---------------------------------------------------------------------
  // Create
  // ---------------------------------------------------------------------

  /**
   * A successful create passed all six rules, found the room and the user,
   * and stored exactly one new ACTIVE row under a fresh id; every other row
   * is untouched and the store stays well formed.
   */
  lemma PlaceAcceptedMeans(db: Db, request: ReservationRequest, today: Day, systemToday: Day)
    requires ValidDb(db)
    requires Place(db, request, today, systemToday).Ok?
    ensures 1 <= request.endDate - request.startDate <= 2
    ensures request.startDate != today && request.startDate <= today + 30
    ensures request.roomId in db.rooms && request.userId in db.users
    ensures FindActiveByRoom(db.reservations, request.roomId) != Many
    ensures FindActiveByRoom(db.reservations, request.roomId).One? ==>
              request.startDate > FindActiveByRoom(db.reservations, request.roomId).reservation.endDate
    ensures var created := Place(db, request, today, systemToday).value;
            var after := AfterPlace(db, Place(db, request, today, systemToday));
            && created.id !in db.reservations
            && created.status == Active
            && after.reservations.Keys == db.reservations.Keys + {created.id}
            && after.reservations[created.id] == created
            && (forall id :: id in db.reservations ==> after.reservations[id] == db.reservations[id])
            && ValidDb(after)
  {
    var availability := Availability.GetRoomAvailability(db.reservations, db.rooms, request.startDate,
                                                         request.roomId, systemToday);
    assert availability.Ok? && availability.value.isAvailable;
  }

  /** After the rules pass, the room is resolved before the user. */
  lemma PlaceResolvesRoomBeforeUser(db: Db, request: ReservationRequest, today: Day, systemToday: Day)
    requires ValidateReservation(db.reservations, db.rooms, request.startDate, request.endDate,
                                 request.roomId, today, systemToday).None?
    ensures request.roomId !in db.rooms ==> Place(db, request, today, systemToday) == Err(RoomNotFound)
    ensures request.roomId in db.rooms && request.userId !in db.users ==>
              Place(db, request, today, systemToday) == Err(UserNotFound)
  {
  }

  /**
   * A failed create leaves the store as it was, and its failure is the first
   * failing date rule whenever one fails.
   */
  lemma PlaceRejectedChangesNothing(db: Db, request: ReservationRequest, today: Day, systemToday: Day)
    requires Place(db, request, today, systemToday).Err?
    ensures AfterPlace(db, Place(db, request, today, systemToday)) == db
    ensures ValidateDates(request.startDate, request.endDate, today).Some? ==>
              Place(db, request, today, systemToday).error
              == ValidateDates(request.startDate, request.endDate, today).value
  {
  }

  /**
   * When the rules pass, the explicit room lookup can only fail for a room
   * that has an ACTIVE reservation but is not in the room table: with no
   * ACTIVE reservation the evaluator has already required the room to exist.
   */
  lemma {:induction false} RoomLookupFailsOnlyForDanglingRoom(db: Db, request: ReservationRequest,
                                                             today: Day, systemToday: Day)
    requires ValidateReservation(db.reservations, db.rooms, request.startDate, request.endDate,
                                 request.roomId, today, systemToday).None?
    requires request.roomId !in db.rooms
    ensures FindActiveByRoom(db.reservations, request.roomId).One?
  {
    var lookup := FindActiveByRoom(db.reservations, request.roomId);
    if lookup == NoActive {
      assert false;
    }
  }

  /**
   * A room whose ACTIVE stay ends on 2023-01-07 is reported free from
   * 2023-01-08, and a request starting 2023-01-05 is refused as already
   * reserved.
   */
  lemma RoomAlreadyReservedExample(systemToday: Day)
    ensures var existing := Reservation(1, Jan05_2023, Jan07_2023, Active, 1, 1);
            var db := Db(map[1 := existing], {1}, {1}, 2);
            && Availability.GetRoomAvailability(db.reservations, db.rooms, Jan05_2023, 1, systemToday)
               == Ok(Availability.RoomAvailability(false, Jan08_2023))
            && Place(db, ReservationRequest(1, 1, Jan05_2023, Jan07_2023), Jan01_2023, systemToday)
               == Err(RoomAlreadyReserved)
            && Message(Place(db, ReservationRequest(1, 1, Jan05_2023, Jan07_2023), Jan01_2023, systemToday)
                       .error) == "Room is already reserved in the provided period"
  {
    var existing := Reservation(1, Jan05_2023, Jan07_2023, Active, 1, 1);
    var db := Db(map[1 := existing], {1}, {1}, 2);
    assert ActiveIds(db.reservations, 1) == {1};
    FirstFailingRuleWins(Jan05_2023, Jan07_2023, Jan01_2023);
  }

  /**
   * The end-to-end example: with today 2023-01-01 and room and user 1
   * present and free, 2023-01-10 to 2023-01-12 is booked as an ACTIVE row.
   */
  lemma PlaceExample(systemToday: Day)
    ensures var db := Db(map[], {1}, {1}, 1);
            Place(db, ReservationRequest(1, 1, Jan10_2023, Jan12_2023), Jan01_2023, systemToday)
            == Ok(Reservation(1, Jan10_2023, Jan12_2023, Active, 1, 1))
  {
    var db := Db(map[], {1}, {1}, 1);
    assert ActiveIds(db.reservations, 1) == {};
    FirstFailingRuleWins(Jan10_2023, Jan12_2023, Jan01_2023);
  }

  // ---------------------------------------------------------------------
  // Update
  // ---------------------------------------------------------------------

  /** An ACTIVE row is found by the lookup of its own room, alone or with others. */
  lemma {:induction false} OwnRowIsFound(db: Db, reservationId: int)
    requires ValidDb(db)
    requires reservationId in db.reservations && db.reservations[reservationId].status == Active
    ensures var lookup := FindActiveByRoom(db.reservations, db.reservations[reservationId].roomId);
            lookup == Many || lookup == One(db.reservations[reservationId])
  {
    var roomId := db.reservations[reservationId].roomId;
    assert reservationId in ActiveIds(db.reservations, roomId);
    var lookup := FindActiveByRoom(db.reservations, roomId);
    if lookup.One? {
      assert reservationId in {lookup.reservation.id};
    }
  }

  /**
   * Update checks availability against the reservation's own room, where the
   * reservation itself is the ACTIVE one: so a successful update always moves
   * the stay to start after the reservation's old end date.
   */
  lemma {:induction false} UpdateOnlyMovesPastOwnEnd(db: Db, request: UpdateRequest, today: Day,
                                                     systemToday: Day)
    requires ValidDb(db)
    requires Update(db, request, today, systemToday).Ok?
    ensures request.startDate > db.reservations[request.reservationId].endDate
  {
    var reservation := db.reservations[request.reservationId];
    OwnRowIsFound(db, request.reservationId);
    assert ValidateReservation(db.reservations, db.rooms, request.startDate, request.endDate,
                               reservation.roomId, today, systemToday).None?;
  }

  /**
   * The other side of the same consequence: when a reservation is the only
   * ACTIVE one of its room and all date rules pass, any new start on or
   * before its current end date is refused as "already reserved".
   */
  lemma {:induction false} UpdateBlockedByOwnEnd(db: Db, request: UpdateRequest, today: Day,
                                                 systemToday: Day)
    requires ValidDb(db)
    requires request.reservationId in db.reservations
    requires db.reservations[request.reservationId].status == Active
    requires |ActiveIds(db.reservations, db.reservations[request.reservationId].roomId)| == 1
    requires ValidateDates(request.startDate, request.endDate, today).None?
    requires request.startDate <= db.reservations[request.reservationId].endDate
    ensures Update(db, request, today, systemToday) == Err(RoomAlreadyReserved)
    ensures Message(Update(db, request, today, systemToday).error)
            == "Room is already reserved in the provided period"
  {
    OwnRowIsFound(db, request.reservationId);
  }

  /** Update of an unknown id, or of a row that is not ACTIVE, fails before any date rule. */
  lemma UpdateChecksRowFirst(db: Db, request: UpdateRequest, today: Day, systemToday: Day)
    ensures request.reservationId !in db.reservations ==>
              Update(db, request, today, systemToday) == Err(ReservationNotFound)
    ensures request.reservationId in db.reservations
            && db.reservations[request.reservationId].status != Active ==>
              Update(db, request, today, systemToday) == Err(NotActive)
  {
  }

  /**
   * On an ACTIVE row the update runs the same six rules as a create on the
   * row's room, and succeeds exactly when they pass.
   */
  lemma UpdateRunsCreateRules(db: Db, request: UpdateRequest, today: Day, systemToday: Day)
    requires request.reservationId in db.reservations
    requires db.reservations[request.reservationId].status == Active
    ensures var reservation := db.reservations[request.reservationId];
            var invalid := ValidateReservation(db.reservations, db.rooms, request.startDate,
                                               request.endDate, reservation.roomId, today, systemToday);
            && (invalid.Some? ==> Update(db, request, today, systemToday) == Err(invalid.value))
            && (invalid.None? <==> Update(db, request, today, systemToday).Ok?)
  {
  }

  // ---------------------------------------------------------------------
  // The status state machine
  // ---------------------------------------------------------------------

  /**
   * One step of the lifecycle: no row disappears; id, room and user of a row
   * never change; a status either stays or goes from ACTIVE to CANCELLED; new
   * rows start ACTIVE.
   */
  ghost predicate LifecycleStep(before: Store, after: Store)
  {
    && before.Keys <= after.Keys
    && (forall id :: id in before ==>
          && after[id].id == before[id].id
          && after[id].roomId == before[id].roomId
          && after[id].userId == before[id].userId
          && (after[id].status == before[id].status
              || (before[id].status == Active && after[id].status == Cancelled)))
    && (forall id :: id in after && id !in before ==> after[id].status == Active)
  }

  /** Create, update and cancel are all lifecycle steps, failed or not. */
  lemma EveryOperationIsALifecycleStep(db: Db, request: ReservationRequest, update: UpdateRequest,
                                       reservationId: int, today: Day, systemToday: Day)
    requires ValidDb(db)
    ensures LifecycleStep(db.reservations, AfterPlace(db, Place(db, request, today, systemToday)).reservations)
    ensures LifecycleStep(db.reservations, AfterSave(db, Update(db, update, today, systemToday)).reservations)
    ensures LifecycleStep(db.reservations, AfterSave(db, Cancel(db, reservationId)).reservations)
  {
    var placed := Place(db, request, today, systemToday);
    if placed.Ok? {
      assert placed.value.id !in db.reservations;
    }
  }

  /** Only an update keeps dates moving; only a cancel changes a status, and only to CANCELLED. */
  lemma UpdateChangesOnlyDates(db: Db, request: UpdateRequest, today: Day, systemToday: Day)
    requires ValidDb(db)
    requires Update(db, request, today, systemToday).Ok?
    ensures var before := db.reservations[request.reservationId];
            var after := AfterSave(db, Update(db, request, today, systemToday)).reservations;
            && after.Keys == db.reservations.Keys
            && after[request.reservationId]
               == before.(startDate := request.startDate, endDate := request.endDate)
            && after[request.reservationId].status == Active
            && (forall id :: id in db.reservations && id != request.reservationId ==>
                  after[id] == db.reservations[id])
  {
  }

  /** CANCELLED and FINISHED are terminal: update and cancel refuse them and change nothing. */
  lemma NotActiveIsTerminal(db: Db, update: UpdateRequest, today: Day, systemToday: Day)
    requires update.reservationId in db.reservations
    requires db.reservations[update.reservationId].status in {Cancelled, Finished}
    ensures Update(db, update, today, systemToday) == Err(NotActive)
    ensures Cancel(db, update.reservationId) == Err(NotActive)
    ensures Message(Cancel(db, update.reservationId).error) == "Reservation must be active"
    ensures AfterSave(db, Update(db, update, today, systemToday)) == db
    ensures AfterSave(db, Cancel(db, update.reservationId)) == db
  {
  }

  // ---------------------------------------------------------------------
  // At most one ACTIVE reservation per room
  // ---------------------------------------------------------------------

  /** A successful update leaves the set of ACTIVE rows of every room as it was. */
  lemma {:induction false} UpdateKeepsActiveSets(db: Db, request: UpdateRequest, today: Day,
                                                 systemToday: Day, roomId: int)
    requires ValidDb(db)
    requires Update(db, request, today, systemToday).Ok?
    ensures ActiveIds(AfterSave(db, Update(db, request, today, systemToday)).reservations, roomId)
            == ActiveIds(db.reservations, roomId)
  {
    var after := AfterSave(db, Update(db, request, today, systemToday)).reservations;
    forall id
      ensures id in ActiveIds(after, roomId) <==> id in ActiveIds(db.reservations, roomId)
    {
      if id == request.reservationId {
        assert after[id].status == db.reservations[id].status;
        assert after[id].roomId == db.reservations[id].roomId;
      }
    }
  }

  /** A successful cancel only removes rows from the ACTIVE sets. */
  lemma {:induction false} CancelShrinksActiveSets(db: Db, reservationId: int, roomId: int)
    requires ValidDb(db)
    ensures ActiveIds(AfterSave(db, Cancel(db, reservationId)).reservations, roomId)
            <= ActiveIds(db.reservations, roomId)
    ensures |ActiveIds(AfterSave(db, Cancel(db, reservationId)).reservations, roomId)|
            <= |ActiveIds(db.reservations, roomId)|
  {
    var before := ActiveIds(db.reservations, roomId);
    var after := ActiveIds(AfterSave(db, Cancel(db, reservationId)).reservations, roomId);
    assert after <= before;
    assert before == after + (before - after);
  }

  /** Update and cancel keep the intended invariant. */
  lemma UpdateAndCancelKeepAtMostOneActive(db: Db, request: UpdateRequest, today: Day,
                                           systemToday: Day, reservationId: int)
    requires ValidDb(db) && AtMostOneActivePerRoom(db.reservations)
    ensures AtMostOneActivePerRoom(AfterSave(db, Update(db, request, today, systemToday)).reservations)
    ensures AtMostOneActivePerRoom(AfterSave(db, Cancel(db, reservationId)).reservations)
  {
    forall roomId ensures |ActiveIds(AfterSave(db, Update(db, request, today, systemToday)).reservations,
                                     roomId)| <= 1
    {
      if Update(db, request, today, systemToday).Ok? {
        UpdateKeepsActiveSets(db, request, today, systemToday, roomId);
      }
    }
    forall roomId ensures |ActiveIds(AfterSave(db, Cancel(db, reservationId)).reservations, roomId)| <= 1
    {
      CancelShrinksActiveSets(db, reservationId, roomId);
    }
  }

  /** A subset has no more elements than its superset. */
  lemma SubsetCardinality(small: set<int>, large: set<int>)
    requires small <= large
    ensures |small| <= |large|
  {
    assert large == small + (large - small);
  }

  /**
   * Create does not keep it: while a room's ACTIVE stay ends on E, the room
   * is "available" from E + 1, and booking it then leaves two ACTIVE rows for
   * the room, after which the room's single-result lookup fails.
   */
  lemma {:induction false} PlaceCanBreakAtMostOneActive(db: Db, request: ReservationRequest, today: Day,
                                                        systemToday: Day)
    requires ValidDb(db)
    requires FindActiveByRoom(db.reservations, request.roomId).One?
    requires request.startDate > FindActiveByRoom(db.reservations, request.roomId).reservation.endDate
    requires ValidateDates(request.startDate, request.endDate, today).None?
    requires request.roomId in db.rooms && request.userId in db.users
    ensures Place(db, request, today, systemToday).Ok?
    ensures FindActiveByRoom(AfterPlace(db, Place(db, request, today, systemToday)).reservations,
                             request.roomId) == Many
    ensures !AtMostOneActivePerRoom(AfterPlace(db, Place(db, request, today, systemToday)).reservations)
  {
    var existing := FindActiveByRoom(db.reservations, request.roomId).reservation;
    var placed := Place(db, request, today, systemToday);
    assert placed.Ok?;
    var after := AfterPlace(db, placed).reservations;
    assert existing.id in ActiveIds(db.reservations, request.roomId);
    assert existing.id < db.nextId;
    assert {existing.id, db.nextId} <= ActiveIds(after, request.roomId);
    SubsetCardinality({existing.id, db.nextId}, ActiveIds(after, request.roomId));
  }

  /**
   * The same on concrete data: room 7 is booked from 2023-01-03 to
   * 2023-01-04, and a second stay from 2023-01-05 is accepted beside it.
   */
  lemma PlaceCanBreakAtMostOneActiveExample()
    ensures var existing := Reservation(1, Jan02_2023 + 1, Jan02_2023 + 2, Active, 7, 1);
            var db := Db(map[1 := existing], {7}, {1}, 2);
            var request := ReservationRequest(1, 7, Jan02_2023 + 3, Jan02_2023 + 4);
            && AtMostOneActivePerRoom(db.reservations)
            && Place(db, request, Jan01_2023, Jan01_2023).Ok?
            && FindActiveByRoom(AfterPlace(db, Place(db, request, Jan01_2023, Jan01_2023)).reservations, 7)
               == Many
  {
    var existing := Reservation(1, Jan02_2023 + 1, Jan02_2023 + 2, Active, 7, 1);
    var db := Db(map[1 := existing], {7}, {1}, 2);
    var request := ReservationRequest(1, 7, Jan02_2023 + 3, Jan02_2023 + 4);
    forall roomId ensures |ActiveIds(db.reservations, roomId)| <= 1 {
      assert ActiveIds(db.reservations, roomId) <= {1};
      assert roomId == 7 ==> ActiveIds(db.reservations, roomId) == {1};
      assert roomId != 7 ==> ActiveIds(db.reservations, roomId) == {};
    }
    assert ActiveIds(db.reservations, 7) == {1};
    FirstFailingRuleWins(request.startDate, request.endDate, Jan01_2023);
    PlaceCanBreakAtMostOneActive(db, request, Jan01_2023, Jan01_2023);
  }
}
