/**
 * Room and Booking: the model objects that wrap store records together with
 * the store they came from. A Room answers availability and "who holds it
 * now"; a Booking knows whether it is active and whom it belongs to, and can
 * create or delete itself in the store.
 *
 * Both carry a reference to the store; the objects themselves never change,
 * so they are datatypes, and the operations that write go through the store.
 */
module Models {

  import opened Wrappers
  import opened Domain
  import opened Repository

  datatype Room = Room(name: string, capacity: int, db: InMemoryRepository)
  {
    /** The room is free over [start, end) iff the database reports no conflict for it. */
    method IsAvailable(start: Instant, end: Instant) returns (free: bool)
      requires db.Valid()
      ensures free <==> !HasSqlConflict(db.bookings, name, start, end)
      ensures free ==> forall b :: Stored(db.bookings, b) && b.roomName == name ==> !(b.start < end && start < b.end)
      ensures start < end && WellOrdered(db.bookings) ==> (free <==> !HasConflict(db.bookings, name, start, end))
    {
      var conflict := DatabaseConflict(db, name, start, end);
      free := conflict.None?;
      if start < end && WellOrdered(db.bookings) {
        SqlConflictMatchesMemory(db.bookings, name, start, end);
      }
    }

    /**
     * The booking of this room whose half-open interval holds `t`: the
     * first one in start order, wrapped as a Booking; None when the room is
     * free at `t`.
     */
    method GetCurrentBooking(t: Instant) returns (r: Option<Booking>)
      requires db.Valid()
      ensures r.None? <==> !OccupiedAt(db.bookings, name, t)
      ensures r.Some? ==> r == Some(FromDict(Occupant(db.GetRoomBookings(name), t).value, db))
      ensures r.Some? ==> r.value.IsActive(t) && r.value.roomName == name && r.value.id.Some?
    {
      var bookings := db.GetRoomBookings(name);
      var current := FindCurrent(bookings, t);
      if current.Some? {
        r := Some(FromDict(current.value, db));
      } else {
        r := None;
        forall id | id in db.bookings && db.bookings[id].roomName == name
          ensures !ActiveAt(db.bookings[id], t)
        {
          assert db.bookings[id] in bookings;
        }
      }
    }
  }

  datatype Booking = Booking(id: Option<int>, roomName: string, userId: int, username: string,
                             start: Instant, end: Instant, db: InMemoryRepository)
  {
    predicate IsOwner(user: int)
    {
      userId == user
    }

    /** The half-open test: active from its start up to, but not at, its end. */
    predicate IsActive(t: Instant)
    {
      Covers(start, end, t)
    }

    /**
     * Stores a new booking unless the database reports a booking of the room
     * that conflicts, in which case nothing is stored and None is returned.
     */
    static method Create(roomName: string, userId: int, username: string, start: Instant, end: Instant,
                         db: InMemoryRepository) returns (r: Option<Booking>)
      requires db.Valid()
      modifies db
      ensures db.Valid()
      ensures old(HasSqlConflict(db.bookings, roomName, start, end)) <==> r.None?
      ensures r.None? ==> unchanged(db)
      ensures r.Some? ==>
                && r.value == Booking(Some(old(db.nextBookingId)), roomName, userId, username, start, end, db)
                && db.bookings == old(db.bookings)[old(db.nextBookingId) :=
                     BookingRecord(old(db.nextBookingId), roomName, userId, username, start, end)]
                && old(db.nextBookingId) !in old(db.bookings)
                && db.nextBookingId == old(db.nextBookingId) + 1 && db.nextRoomId == old(db.nextRoomId)
                && db.rooms == old(db.rooms) && db.admins == old(db.admins)
      ensures r.Some? && start < end && old(Consistent(db.bookings)) ==> Consistent(db.bookings)
    {
      var conflict := DatabaseConflict(db, roomName, start, end);
      if conflict.Some? {
        return None;
      }
      ghost var before := db.bookings;
      var bookingId := db.CreateBooking(roomName, userId, username, start, end);
      r := Some(Booking(Some(bookingId), roomName, userId, username, start, end, db));
      if start < end && Consistent(before) {
        SqlConflictMatchesMemory(before, roomName, start, end);
        InsertKeepsConsistent(before, BookingRecord(bookingId, roomName, userId, username, start, end));
      }
    }

    /** Deletes this booking from the store; a booking never stored has no id and deletes nothing. */
    method Delete() returns (deleted: bool)
      requires db.Valid()
      modifies db
      ensures db.Valid()
      ensures id.None? ==> !deleted && unchanged(db)
      ensures id.Some? ==> deleted == (id.value in old(db.bookings))
      ensures id.Some? ==> db.bookings == old(db.bookings) - {id.value}
      ensures db.rooms == old(db.rooms) && db.admins == old(db.admins)
      ensures db.nextRoomId == old(db.nextRoomId) && db.nextBookingId == old(db.nextBookingId)
    {
      if id.None? {
        return false;
      }
      deleted := db.DeleteBooking(id.value);
    }
  }

  /**
   * The conflict query the model objects send to the database: a booking of
   * the room that satisfies the SQLite variant of the test, or None. The
   * query takes the first matching row, here the first by id.
   */
  method DatabaseConflict(db: InMemoryRepository, roomName: string, start: Instant, end: Instant)
    returns (r: Option<BookingRecord>)
    requires db.Valid()
    ensures r.None? <==> !HasSqlConflict(db.bookings, roomName, start, end)
    ensures r.Some? ==> Stored(db.bookings, r.value) && r.value.roomName == roomName && SqlConflicts(r.value, start, end)
  {
    var id := 1;
    while id < db.nextBookingId
      invariant 1 <= id <= db.nextBookingId
      invariant forall k :: k in db.bookings && k < id && db.bookings[k].roomName == roomName ==>
                  !SqlConflicts(db.bookings[k], start, end)
    {
      if id in db.bookings {
        var b := db.bookings[id];
        if b.roomName == roomName && SqlConflicts(b, start, end) {
          return Some(b);
        }
      }
      id := id + 1;
    }
    return None;
  }

  /** Wraps a stored record as a Booking bound to `db`. */
  function FromDict(data: BookingRecord, db: InMemoryRepository): (b: Booking)
    ensures b.id == Some(data.id) && b.db == db
    ensures b.roomName == data.roomName && b.userId == data.userId
  {
    Booking(Some(data.id), data.roomName, data.userId, data.username, data.start, data.end, db)
  }

  /** The record a Booking stands for, once it has an id. */
  function ToRecord(b: Booking): (r: Option<BookingRecord>)
    ensures r.Some? <==> b.id.Some?
    ensures r.Some? ==> r.value.id == b.id.value && r.value.roomName == b.roomName && r.value.userId == b.userId
  {
    if b.id.Some? then Some(BookingRecord(b.id.value, b.roomName, b.userId, b.username, b.start, b.end))
    else None
  }

  /** Wrapping a record and reading it back gives the record, and the other way round. */
  lemma FromDictRoundTrip(data: BookingRecord, db: InMemoryRepository, b: Booking)
    ensures ToRecord(FromDict(data, db)) == Some(data)
    ensures b.id.Some? ==> FromDict(ToRecord(b).value, b.db) == b
  {
  }

  /** A wrapped record is active and owned exactly when the record is. */
  lemma FromDictKeepsMeaning(data: BookingRecord, db: InMemoryRepository, t: Instant, user: int)
    ensures FromDict(data, db).IsActive(t) <==> ActiveAt(data, t)
    ensures FromDict(data, db).IsOwner(user) <==> data.userId == user
  {
  }

  /** A non-empty booking is active at its start and no longer at its end. */
  lemma ActiveFromStartUntilEnd(b: Booking)
    requires b.start < b.end
    ensures b.IsActive(b.start) && !b.IsActive(b.end)
    ensures forall t :: b.IsActive(t) <==> b.start <= t < b.end
  {
  }

  /**
   * In a consistent store, two bookings of one room that are both active at
   * `t` are the same booking: a room has at most one current booking.
   */
  lemma OneActiveBookingPerRoom(db: InMemoryRepository, a: BookingRecord, b: BookingRecord,
                                 t: Instant)
    requires db.Valid() && Consistent(db.bookings)
    requires Stored(db.bookings, a) && Stored(db.bookings, b) && a.roomName == b.roomName
    requires FromDict(a, db).IsActive(t) && FromDict(b, db).IsActive(t)
    ensures a == b
  {
    SingleOccupant(db.bookings, a, b, t);
  }
}
