/**
 * The reservation entity and the reservation store shared by both service
 * packages. Calendar dates are epoch-day numbers: `plusDays(n)` is `+ n`,
 * `ChronoUnit.DAYS.between(s, e)` is `e - s`, `isAfter` is `>`.
 */
module Booking {

  /** A calendar date as a number of days since 1970-01-01. */
  type Day = int

  datatype Option<+T> = None | Some(value: T)

  datatype Result<+T, +E> = Ok(value: T) | Err(error: E)

  /** ReservationStatusEnum */
  datatype Status = Active | Cancelled | Finished

  /**
   * A reservation row. Room and user are reduced to their ids.
   */
  datatype Reservation = Reservation(
    id: int,
    startDate: Day,
    endDate: Day,
    status: Status,
    roomId: int,
    userId: int)

  /** The reservation table, keyed by reservation id. */
  type Store = map<int, Reservation>

  /** Every row is stored under its own id. */
  ghost predicate WellFormed(store: Store)
  {
    forall id :: id in store ==> store[id].id == id
  }

  /** The ids of the ACTIVE reservations of one room. */
  function ActiveIds(store: Store, roomId: int): set<int>
  {
    set id | id in store && store[id].status == Active && store[id].roomId == roomId
  }

  /** What a single-result query for "the ACTIVE reservation of a room" finds. */
  datatype ActiveLookup = NoActive | One(reservation: Reservation) | Many

  /** A set of one element is the singleton of that element. */
  lemma SingletonOf(ids: set<int>)
    requires |ids| == 1
    ensures exists id :: ids == {id}
  {
    if forall x :: x !in ids {
      assert false;
    }
    var id :| id in ids;
    assert |ids - {id}| == 0;
    assert ids == {id};
  }

  /**
   * `findByRoomIdAndStatus(roomId, ACTIVE)`: the one ACTIVE reservation of the
   * room, none, or more than one (which a single-result query rejects).
   */
  function FindActiveByRoom(store: Store, roomId: int): (r: ActiveLookup)
    ensures r == NoActive <==> ActiveIds(store, roomId) == {}
    ensures r.One? ==> |ActiveIds(store, roomId)| == 1 && r.reservation in store.Values
                       && r.reservation.status == Active && r.reservation.roomId == roomId
    ensures r.One? && WellFormed(store) ==> ActiveIds(store, roomId) == {r.reservation.id}
                                            && store[r.reservation.id] == r.reservation
    ensures r == Many <==> |ActiveIds(store, roomId)| >= 2
  {
    var ids := ActiveIds(store, roomId);
    if ids == {} then NoActive
    else if |ids| == 1 then
      SingletonOf(ids);
      var id :| ids == {id};
      One(store[id])
    else Many
  }

  /** The intended data invariant: at most one ACTIVE reservation per room. */
  ghost predicate AtMostOneActivePerRoom(store: Store)
  {
    forall roomId :: |ActiveIds(store, roomId)| <= 1
  }

  /** Under the intended invariant, the single-result query never finds two rows. */
  lemma LookupNeverManyUnderInvariant(store: Store, roomId: int)
    requires AtMostOneActivePerRoom(store)
    ensures FindActiveByRoom(store, roomId) != Many
  {
    assert |ActiveIds(store, roomId)| <= 1;
  }

  /** ReservationRequestDTO: who books which room for which dates. */
  datatype ReservationRequest = ReservationRequest(userId: int, roomId: int, startDate: Day, endDate: Day)

  /** The first failure of a sequence of checks run in order, each either failing or passing. */
  function FirstFailure<E>(checks: seq<Option<E>>): (r: Option<E>)
    ensures r.None? <==> forall i :: 0 <= i < |checks| ==> checks[i].None?
    ensures r.Some? ==> exists i :: 0 <= i < |checks| && checks[i] == r
                                    && forall j :: 0 <= j < i ==> checks[j].None?
  {
    if checks == [] then None
    else if checks[0].Some? then checks[0]
    else
      var rest := FirstFailure(checks[1..]);
      assert forall i :: 1 <= i < |checks| ==> checks[i] == checks[1..][i - 1];
      rest
  }
}
