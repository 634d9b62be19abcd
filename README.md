# Cancun booking: reservation rules, availability and lifecycle in Dafny

This project models the reservation rule set of a hotel-room booking backend.
It has three parts:

- **Date validator.** It checks a requested stay `(start, end)` against today's date.
- **Availability evaluator.** It decides whether a room is free for a candidate start date, and names the nearest free date.
- **Lifecycle.** Create, update and cancel over a store of reservation rows.

Two generations of this code live side by side in the repository:

- **Canonical**, package `services`. Six rules; the evaluator requires the room to exist; cancel really cancels.
- **Older**, package `service`. Four rules; the evaluator never checks the room; cancel only checks.

Both are modelled, as separate modules.

Dates are epoch-day integers. `plusDays(n)` is `+ n`, `ChronoUnit.DAYS.between(s, e)` is `e - s`,
and `isAfter` is `>`. For example 2023-01-01 is day 19358. The service's injected clock is a `today`
parameter. Both evaluators read `LocalDate.now()` instead of that clock, so they get their own
`systemToday` parameter.

Modules:

- `Booking` (booking.dfy). The reservation row, the status enum, and the store (`map` from id to row).
  It also holds the single-result lookup "the ACTIVE reservation of a room".
- `Availability` (availability.dfy). The canonical evaluator, as pure functions.
- `Reservations` (reservations.dfy). The canonical rules as pure functions, and create/update/cancel
  as pure functions over a `Db` value. It also holds the class `ReservationService`. That class keeps
  the store in fields, and its methods change them in place; each method is proved against the
  matching function.
- `ReservationProperties` (reservation_properties.dfy). What the canonical rules and lifecycle
  promise. It also proves two consequences of the code:
  - an update can only move a stay to after the stay's own current end date;
  - create can leave two ACTIVE reservations on one room.
- `LegacyAvailability`, `LegacyExceptions`, `LegacyReservations`, `LegacyCancellation`. The older package.
  Its private availability overload and `roomIsReserved`
  (service/RoomAvailabilityServiceImpl.java:35-46) are the same code as the canonical ones.
  So `LegacyAvailability` reuses `Availability.AvailabilityAgainst`.
- `Variants` (variants.dfy). How the two generations relate.

Three behaviours of the code are worth stating plainly:

- At most one ACTIVE reservation per room is not enforced. A room whose ACTIVE stay ends on E counts as
  available from E + 1, and create then stores a second ACTIVE row. After that, the room's
  single-result lookup fails (`PlaceCanBreakAtMostOneActive`).
- The duration rule compares `end - start` with 3, so one or two nights pass and three do not.
- Equal dates and start-after-end fail with two different messages, and the model keeps them apart.

## Model

| member | source | states |
|---|---|---|
| `Booking.FindActiveByRoom` | src/main/java/com/gustavo/cancunbooking/repositories/ReservationRepository.java:21-24 | the ACTIVE-row lookup for a room (the intended room filter, not the query's `r.id`) yields NoActive exactly when the room has no ACTIVE row, One(row) exactly when it has one such row and that is the row, and Many exactly when it has two or more |
| `Booking.LookupNeverManyUnderInvariant` | src/main/java/com/gustavo/cancunbooking/repositories/ReservationRepository.java:21-24 | while each room has at most one ACTIVE row, the lookup never fails |
| `Booking.FirstFailure` | src/main/java/com/gustavo/cancunbooking/services/ReservationServiceImpl.java:101-111 | a sequence of throwing checks run in order passes iff every check passes, and otherwise fails with the failure of the first failing check |
| `Availability.AvailabilityAgainst` | src/main/java/com/gustavo/cancunbooking/services/RoomAvailabilityServiceImpl.java:43-54 | against an ACTIVE reservation ending on E: available iff start > E, nearest date E + 1 in both branches |
| `Availability.Evaluate` | src/main/java/com/gustavo/cancunbooking/services/RoomAvailabilityServiceImpl.java:26-41 | fails, with "No room found with the provided id", exactly when there is no ACTIVE reservation and the room does not exist; with an ACTIVE reservation ending on E: available iff start > E, nearest E + 1; with none: available, nearest systemToday + 1 |
| `Availability.GetRoomAvailability` | src/main/java/com/gustavo/cancunbooking/services/RoomAvailabilityServiceImpl.java:26-41 | the public overload fails on the lookup exactly when the room has more than one ACTIVE row |
| `Availability.ActiveReservationDecides` | src/main/java/com/gustavo/cancunbooking/services/RoomAvailabilityServiceImpl.java:28-54 | when the lookup finds one ACTIVE reservation ending on E: the room is unavailable iff start <= E, and nearest is E + 1 |
| `Availability.NoActiveReservationDecides` | src/main/java/com/gustavo/cancunbooking/services/RoomAvailabilityServiceImpl.java:34-39 | with no ACTIVE reservation: an existing room is available with nearest systemToday + 1, whatever the candidate date; an unknown room fails with RoomNotFound |
| `Availability.ExistenceConsultedOnlyWithoutActive` | src/main/java/com/gustavo/cancunbooking/services/RoomAvailabilityServiceImpl.java:27-41 | when the room has an ACTIVE row, the answer is the same whatever rooms exist |
| `Availability.NearestIsLeastAvailable` | src/main/java/com/gustavo/cancunbooking/services/RoomAvailabilityServiceImpl.java:43-54 | against an ACTIVE reservation the nearest date is the least available date: it is available, the day before is not, and a date is available iff it is on or after it |
| `Reservations.ValidateDates` | src/main/java/com/gustavo/cancunbooking/services/ReservationServiceImpl.java:101-109 | the five date rules (the helpers at lines 141-170) accept exactly 1 <= end - start <= 2, start != today and start <= today + 30; a failure is one of the five date failures |
| `Reservations.ValidateReservation` | src/main/java/com/gustavo/cancunbooking/services/ReservationServiceImpl.java:101-139 | a failing date rule decides the failure before the room is looked at. Once the dates pass: an "unavailable" answer fails as RoomAlreadyReserved ("Room is already reserved in the provided period", lines 133-139), and the evaluator's RoomNotFound and NonUniqueActive failures are passed on. The six rules pass iff the dates pass and the evaluator answers "available" for the start date |
| `Reservations.GetReservation` | src/main/java/com/gustavo/cancunbooking/services/ReservationServiceImpl.java:95-99 | finds the stored row iff the id is in the store, else fails with "No reservation found with the given id" |
| `Reservations.Save` | src/main/java/com/gustavo/cancunbooking/services/ReservationServiceImpl.java:92 | saving writes the row under its id and leaves every other row, room, user and the id counter alone |
| `Reservations.Place` | src/main/java/com/gustavo/cancunbooking/services/ReservationServiceImpl.java:52-70 | create succeeds iff the six rules pass and room and user both exist, and then builds the ACTIVE row with the request's dates, room and user under the next id; when a rule fails, create fails with that rule's failure |
| `Reservations.Update` | src/main/java/com/gustavo/cancunbooking/services/ReservationServiceImpl.java:73-82 | a successful update is of a stored row, and yields that row with only its start and end dates replaced |
| `Reservations.Cancel` | src/main/java/com/gustavo/cancunbooking/services/ReservationServiceImpl.java:86-93 | cancel succeeds iff the row exists and is ACTIVE and yields it as CANCELLED; unknown id gives ReservationNotFound, non-ACTIVE gives NotActive |
| `Reservations.ReservationService.constructor` | src/main/java/com/gustavo/cancunbooking/services/ReservationServiceImpl.java:34-48 | a service over an empty reservation store and the given rooms and users |
| `Reservations.ReservationService.PlaceReservation` | src/main/java/com/gustavo/cancunbooking/services/ReservationServiceImpl.java:52-70 | returns what Place says and leaves the store as AfterPlace says: on success the one new row is saved once and the id counter advances, on failure nothing changes |
| `Reservations.ReservationService.UpdateReservation` | src/main/java/com/gustavo/cancunbooking/services/ReservationServiceImpl.java:73-82 | returns what Update says; on success the changed row is saved once, on failure nothing changes |
| `Reservations.ReservationService.CancelReservation` | src/main/java/com/gustavo/cancunbooking/services/ReservationServiceImpl.java:86-93 | returns what Cancel says; on success the CANCELLED row is saved once, on failure nothing changes |
| `ReservationProperties.FirstFailingRuleWins` | src/main/java/com/gustavo/cancunbooking/services/ReservationServiceImpl.java:101-111 | equal dates fail as SameDates; otherwise start == today fails as StartsToday; otherwise start > end as StartAfterEnd; otherwise a span of 3 or more as TooLong; otherwise start > today + 30 as TooFarInFuture |
| `ReservationProperties.ThreeNightStayIsTooLong` | src/test/java/com/gustavo/cancunbooking/services/ReservationServiceImplTest.java:74-85 | 2023-01-01 to 2023-01-04 fails as TooLong, with "Reservation period cannot be greater than 3 days" |
| `ReservationProperties.ThirtyDayLimit` | src/test/java/com/gustavo/cancunbooking/services/ReservationServiceImplTest.java:88-104 | with today 2023-01-01, a start of 2023-02-01 fails with "Reservation cannot be more than 30 days into the future", while a start exactly 30 days ahead passes |
| `ReservationProperties.StartAfterEndExample` | src/test/java/com/gustavo/cancunbooking/services/ReservationServiceImplTest.java:59-71 | 2023-01-02 to 2023-01-01 fails as StartAfterEnd, with "The start date cannot be after the end date" |
| `ReservationProperties.RoomAlreadyReservedExample` | src/test/java/com/gustavo/cancunbooking/services/ReservationServiceImplTest.java:106-122 | with today 2023-01-01 and room 1 ACTIVE until 2023-01-07, the evaluator answers unavailable with nearest 2023-01-08, and a create for 2023-01-05 to 2023-01-07 fails with "Room is already reserved in the provided period" |
| `ReservationProperties.PastStartIsNotRejected` | src/main/java/com/gustavo/cancunbooking/services/ReservationServiceImpl.java:166-170 | a one- or two-night stay starting before today passes every date rule |
| `ReservationProperties.PlaceAcceptedMeans` | src/main/java/com/gustavo/cancunbooking/services/ReservationServiceImpl.java:52-70 | a successful create obeys the date bounds, found room and user, and found the room free (after the end of its ACTIVE stay, if any). It stored exactly one new ACTIVE row under a fresh id, left the other rows unchanged, and kept the store well formed |
| `ReservationProperties.PlaceResolvesRoomBeforeUser` | src/main/java/com/gustavo/cancunbooking/services/ReservationServiceImpl.java:60-66 | after the rules pass, a missing room fails as RoomNotFound whatever the user; a present room with a missing user fails as UserNotFound |
| `ReservationProperties.PlaceRejectedChangesNothing` | src/main/java/com/gustavo/cancunbooking/services/ReservationServiceImpl.java:52-53 | a failed create saves nothing, and its failure is the first failing date rule when there is one |
| `ReservationProperties.RoomLookupFailsOnlyForDanglingRoom` | src/main/java/com/gustavo/cancunbooking/services/ReservationServiceImpl.java:60-61 | once the rules pass, the explicit room lookup can fail only for a room that has an ACTIVE row but is absent from the room table |
| `ReservationProperties.PlaceExample` | src/test/java/com/gustavo/cancunbooking/services/ReservationServiceImplTest.java:124-155 | today 2023-01-01, user 1, room 1, 2023-01-10 to 2023-01-12 on an empty store yields the ACTIVE row with those values |
| `ReservationProperties.UpdateOnlyMovesPastOwnEnd` | src/main/java/com/gustavo/cancunbooking/services/ReservationServiceImpl.java:113-125 | availability is checked on the reservation's own room, where the reservation itself is the ACTIVE row. So every successful update starts after the reservation's old end date |
| `ReservationProperties.UpdateBlockedByOwnEnd` | src/main/java/com/gustavo/cancunbooking/services/ReservationServiceImpl.java:113-125 | when the row is ACTIVE and the only ACTIVE row of its room, and the dates are valid, any new start on or before its current end fails with "Room is already reserved in the provided period" |
| `ReservationProperties.UpdateChecksRowFirst` | src/main/java/com/gustavo/cancunbooking/services/ReservationServiceImpl.java:73-114 | update of an unknown id fails as ReservationNotFound and of a non-ACTIVE row as NotActive, whatever the dates |
| `ReservationProperties.UpdateRunsCreateRules` | src/main/java/com/gustavo/cancunbooking/services/ReservationServiceImpl.java:113-125 | on an ACTIVE row, update fails with the six rules' failure (on the row's room) and succeeds exactly when they pass |
| `ReservationProperties.EveryOperationIsALifecycleStep` | src/main/java/com/gustavo/cancunbooking/services/ReservationServiceImpl.java:52-93 | create, update and cancel never delete a row or change its id, room or user. A status only stays or goes ACTIVE to CANCELLED, and new rows are ACTIVE |
| `ReservationProperties.UpdateChangesOnlyDates` | src/main/java/com/gustavo/cancunbooking/services/ReservationServiceImpl.java:77-80 | a successful update replaces only the row's start and end dates. The row stays ACTIVE, and every other row is unchanged |
| `ReservationProperties.NotActiveIsTerminal` | src/main/java/com/gustavo/cancunbooking/services/ReservationServiceImpl.java:127-131 | on a CANCELLED or FINISHED row, update and cancel fail as NotActive ("Reservation must be active") and change nothing |
| `ReservationProperties.UpdateKeepsActiveSets` | src/main/java/com/gustavo/cancunbooking/services/ReservationServiceImpl.java:77-80 | a successful update leaves every room's set of ACTIVE rows unchanged |
| `ReservationProperties.CancelShrinksActiveSets` | src/main/java/com/gustavo/cancunbooking/services/ReservationServiceImpl.java:89-92 | a cancel only removes rows from a room's ACTIVE set |
| `ReservationProperties.UpdateAndCancelKeepAtMostOneActive` | src/main/java/com/gustavo/cancunbooking/services/ReservationServiceImpl.java:73-93 | update and cancel preserve "at most one ACTIVE row per room" |
| `ReservationProperties.PlaceCanBreakAtMostOneActive` | src/main/java/com/gustavo/cancunbooking/services/ReservationServiceImpl.java:101-111 | for every well-formed store where a room has one ACTIVE row ending on E: a create for that room that starts after E, with valid dates and an existing room and user, succeeds. Afterwards the room has two ACTIVE rows, its lookup fails, and at most one ACTIVE row per room no longer holds |
| `ReservationProperties.PlaceCanBreakAtMostOneActiveExample` | src/main/java/com/gustavo/cancunbooking/services/ReservationServiceImpl.java:101-111 | a concrete instance: a store satisfying at most one ACTIVE row per room, where a create for room 7 from 2023-01-05 succeeds beside the stay of 2023-01-03 to 2023-01-04 and the lookup then fails |
| `LegacyAvailability.Evaluate` | src/main/java/com/gustavo/cancunbooking/service/RoomAvailabilityServiceImpl.java:22-33 | never fails. With an ACTIVE reservation ending on E: available iff start > E, nearest E + 1. With none: available, nearest systemToday + 1 |
| `LegacyAvailability.GetRoomAvailability` | src/main/java/com/gustavo/cancunbooking/service/RoomAvailabilityServiceImpl.java:22-33 | fails only when the room has more than one ACTIVE row; there is no room-not-found failure |
| `LegacyAvailability.ActiveReservationDecides` | src/main/java/com/gustavo/cancunbooking/service/RoomAvailabilityServiceImpl.java:28-46 | when the lookup finds one ACTIVE reservation ending on E: unavailable iff start <= E, nearest E + 1 |
| `LegacyAvailability.NoActiveReservationAlwaysAvailable` | src/main/java/com/gustavo/cancunbooking/service/RoomAvailabilityServiceImpl.java:30-32 | with no ACTIVE reservation any room id is available with nearest systemToday + 1 |
| `LegacyReservations.ValidateDates` | src/main/java/com/gustavo/cancunbooking/service/ReservationServiceImpl.java:65-71 | the three older date rules (helpers at lines 83-100) accept exactly 0 <= end - start <= 2 and start <= today + 30 |
| `LegacyReservations.FirstFailingRuleWins` | src/main/java/com/gustavo/cancunbooking/service/ReservationServiceImpl.java:65-100 | start > end fails as IllegalArgument "The start date cannot be after the end date"; otherwise a span of 3 or more fails as ReservationTooLong; otherwise start > today + 30 fails as ReservationAfterAllowedMaximum |
| `LegacyReservations.ValidateReservationRequest` | src/main/java/com/gustavo/cancunbooking/service/ReservationServiceImpl.java:65-81 | a failing date rule decides the failure. Once the dates pass, an "unavailable" answer fails as RoomAlreadyReservedException (lines 75-81) and a failing lookup as NonUniqueActive. The request passes iff the dates pass and the older evaluator says "available" |
| `LegacyReservations.Place` | src/main/java/com/gustavo/cancunbooking/service/ReservationServiceImpl.java:49-63 | create succeeds iff the four rules pass. It fails with their failure, and otherwise yields the ACTIVE row with the request's dates, room and user under the next id |
| `LegacyReservations.LegacyReservationService.constructor` | src/main/java/com/gustavo/cancunbooking/service/ReservationServiceImpl.java:32-45 | a service over an empty reservation store |
| `LegacyReservations.LegacyReservationService.PlaceReservation` | src/main/java/com/gustavo/cancunbooking/service/ReservationServiceImpl.java:49-63 | returns what Place says, which is the row as saved under a fresh id; on failure nothing changes |
| `LegacyReservations.SameDayStayPasses` | src/main/java/com/gustavo/cancunbooking/service/ReservationServiceImpl.java:65-73 | a stay starting and ending on the same day passes the older date rules |
| `LegacyReservations.PlaceNeverChecksRoomOrUser` | src/main/java/com/gustavo/cancunbooking/service/ReservationServiceImpl.java:57-59 | with valid dates and no ACTIVE reservation for the room, any room and user ids are booked, existing or not |
| `LegacyCancellation.CancelReservation` | src/main/java/com/gustavo/cancunbooking/service/CancellationServiceImpl.java:19-32 | returns normally iff the row exists and is ACTIVE. Otherwise the unknown-id check comes first (ReservationNotFound), then IllegalArgument "Reservation is not active, cannot be cancelled" |
| `Variants.CanonicalDatesImplyLegacyDates` | src/main/java/com/gustavo/cancunbooking/service/ReservationServiceImpl.java:65-73 | every range accepted by the canonical date rules is accepted by the older date rules |
| `Variants.LegacyAcceptsSameDayAndToday` | src/main/java/com/gustavo/cancunbooking/service/ReservationServiceImpl.java:65-73 | the older rules accept equal dates and a start today, which the canonical rules reject as SameDates and StartsToday |
| `Variants.EvaluatorsAgreeOnExistingRooms` | src/main/java/com/gustavo/cancunbooking/service/RoomAvailabilityServiceImpl.java:22-33 | on an existing room the two evaluators answer alike. On an unknown room with no ACTIVE row, the canonical one fails and the older one says available |
| `Variants.CanonicalRequestImpliesLegacyRequest` | src/main/java/com/gustavo/cancunbooking/service/ReservationServiceImpl.java:65-73 | a request passing the canonical six rules passes the older four |
| `Variants.CanonicalPlaceImpliesLegacyPlace` | src/main/java/com/gustavo/cancunbooking/service/ReservationServiceImpl.java:49-63 | whatever canonical create books, the older create books as the same row |
| `Variants.CancellationsAgreeButOnlyCanonicalCancels` | src/main/java/com/gustavo/cancunbooking/service/CancellationServiceImpl.java:19-32 | both cancellations accept the same rows and fail for the same reasons. Only the canonical one leaves the row CANCELLED; the older one leaves it ACTIVE and saves nothing |

## Left out

- HTTP layer: both controllers and both exception advices. They are routing, plus the mapping of exceptions to 400 responses.
- Field-level request validation. The `@NotNull`/`@Future` annotations run before the services, so they are not preconditions here. Ids and dates are plain integers and cannot be null.
- The response DTOs. Create and update return the saved row; it carries everything `ReservationSuccessResponseDTO` copies out.
- The repositories' query text. `findByRoomIdAndStatus` filters on `r.id` instead of `r.room.id` (repositories/ReservationRepository.java:21-24). The model uses the intended room filter.
- The lookup's failure `NonUniqueActive`. It stands for the exception a single-result query raises when it finds two rows; it is not a message of the services. Its message text is the model's own.
- Calendar arithmetic, clocks and time zones. Dates are epoch days. `today` and `systemToday` are parameters, not readings of a clock.
- Transactions and concurrency. Each operation runs alone, so the race between the availability check and `save` is not modelled.
- The FINISHED status. No operation in the source produces it; the model only treats it as "not ACTIVE".
- Reservations.ReservationService.CancelReservation: the source returns nothing. The model returns the saved row.
- LegacyReservations.LegacyReservationService.PlaceReservation: `getReferenceById` gives lazy proxies that fail only when the row is flushed or a proxy is read. The model stores the ids unchecked and does not model that later failure.
- The service interfaces, the entity's JPA mapping and the test classes. The tests serve only as examples for the lemmas.
