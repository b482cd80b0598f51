/**
 * InMemoryRepository: the in-memory store behind the booking service. It
 * keeps rooms by name, bookings by id and admins by user id, plus the two
 * id counters. Its dictionaries are the class's map fields; the listing
 * queries are functions over those maps.
 *
 * Python dictionaries iterate in insertion order. Booking ids come from a
 * counter that only grows and a deleted id is never reused, so insertion
 * order is ascending id order: the loops below walk ids upwards from 1.
 */
module Repository {

  import opened Wrappers
  import opened Domain
  import opened Ordering

  /** Which bookings a listing selects. */
  datatype Selector = ByRoom(room: string) | ByUser(user: int) | ByRoomAndUser(room: string, user: int)

  predicate Selects(f: Selector, b: BookingRecord)
  {
    match f
    case ByRoom(room) => b.roomName == room
    case ByUser(user) => b.userId == user
    case ByRoomAndUser(room, user) => b.roomName == room && b.userId == user
  }

  /** Every booking is stored under its own id. */
  ghost predicate KeyedById(m: map<int, BookingRecord>)
  {
    forall id :: id in m ==> m[id].id == id
  }

  /** `b` is the booking stored under its id. */
  predicate Stored(m: map<int, BookingRecord>, b: BookingRecord)
  {
    b.id in m && m[b.id] == b
  }

  /**
   * The bookings with ids in [lo, hi) that `f` selects, in start order
   * (ties in id order): the comprehension-and-sort of the listing queries.
   */
  function Collect(m: map<int, BookingRecord>, f: Selector, lo: int, hi: int): (s: seq<BookingRecord>)
    requires KeyedById(m)
    decreases hi - lo
    ensures InStartOrder(s)
    ensures forall b :: b in s <==> Stored(m, b) && lo <= b.id < hi && Selects(f, b)
  {
    if lo >= hi then []
    else
      var rest := Collect(m, f, lo + 1, hi);
      if lo in m && Selects(f, m[lo]) then InsertByStart(m[lo], rest) else rest
  }

  /**
   * Among the bookings with ids in [lo, hi) that `f` selects, the one with
   * the latest start; on a tie the earliest inserted, since a stable sort
   * in reverse keeps equal keys in their original order.
   */
  function Latest(m: map<int, BookingRecord>, f: Selector, lo: int, hi: int): (r: Option<BookingRecord>)
    requires KeyedById(m)
    decreases hi - lo
    ensures r.None? <==> forall id :: id in m && lo <= id < hi ==> !Selects(f, m[id])
    ensures r.Some? ==> Stored(m, r.value) && lo <= r.value.id < hi && Selects(f, r.value)
    ensures r.Some? ==> forall id :: id in m && lo <= id < hi && Selects(f, m[id]) ==>
                          m[id].start < r.value.start || (m[id].start == r.value.start && r.value.id <= id)
  {
    if lo >= hi then None
    else
      var rest := Latest(m, f, lo + 1, hi);
      if lo in m && Selects(f, m[lo]) && (rest.None? || m[lo].start >= rest.value.start) then Some(m[lo])
      else rest
  }

  /** The ids in [lo, hi) of the bookings of `room`, ascending. */
  function RoomIds(m: map<int, BookingRecord>, room: string, lo: int, hi: int): (ids: seq<int>)
    decreases hi - lo
    ensures forall i, j :: 0 <= i < j < |ids| ==> ids[i] < ids[j]
    ensures forall id :: id in ids <==> id in m && lo <= id < hi && m[id].roomName == room
  {
    if lo >= hi then []
    else
      var rest := RoomIds(m, room, lo + 1, hi);
      if lo in m && m[lo].roomName == room then
        assert forall j :: 0 <= j < |rest| ==> lo < rest[j] by {
          forall j | 0 <= j < |rest| ensures lo < rest[j] {
            assert rest[j] in rest;
          }
        }
        [lo] + rest
      else rest
  }

  /** The keys of the bookings of `room`. */
  ghost function RoomKeys(m: map<int, BookingRecord>, room: string): set<int>
  {
    set id | id in m && m[id].roomName == room
  }

  /** A strictly increasing list has as many elements as its set of elements. */
  lemma {:induction false} IncreasingCount(ids: seq<int>)
    requires forall i, j :: 0 <= i < j < |ids| ==> ids[i] < ids[j]
    ensures |set id | id in ids| == |ids|
  {
    if ids != [] {
      IncreasingCount(ids[1..]);
      assert (set id | id in ids) == {ids[0]} + (set id | id in ids[1..]);
      assert ids[0] !in (set id | id in ids[1..]);
    }
  }

  /** Some booking of `room` satisfies the conflict test against [start, end). */
  ghost predicate HasConflict(m: map<int, BookingRecord>, room: string, start: Instant, end: Instant)
  {
    exists id :: id in m && m[id].roomName == room && Conflicts(m[id], start, end)
  }

  /** Some booking of `room` satisfies the SQLite variant of the conflict test against [start, end). */
  ghost predicate HasSqlConflict(m: map<int, BookingRecord>, room: string, start: Instant, end: Instant)
  {
    exists id :: id in m && m[id].roomName == room && SqlConflicts(m[id], start, end)
  }

  /** Every stored booking is well-ordered. */
  ghost predicate WellOrdered(m: map<int, BookingRecord>)
  {
    forall id :: id in m ==> m[id].start < m[id].end
  }

  /** No two bookings of one room satisfy the conflict test. */
  ghost predicate NoDoubleBooking(m: map<int, BookingRecord>)
  {
    forall i, j :: i in m && j in m && i != j && m[i].roomName == m[j].roomName ==>
      !Conflicts(m[i], m[j].start, m[j].end)
  }

  /** The invariant the booking service keeps over the store. */
  ghost predicate Consistent(m: map<int, BookingRecord>)
  {
    WellOrdered(m) && NoDoubleBooking(m)
  }

  /**
   * Over well-ordered bookings and a well-ordered request the SQLite query
   * and the in-memory loop find a conflict in exactly the same cases.
   */
  lemma SqlConflictMatchesMemory(m: map<int, BookingRecord>, room: string, start: Instant, end: Instant)
    requires WellOrdered(m) && start < end
    ensures HasSqlConflict(m, room, start, end) <==> HasConflict(m, room, start, end)
  {
    forall id | id in m && m[id].roomName == room
      ensures SqlConflicts(m[id], start, end) <==> Conflicts(m[id], start, end)
    {
      SqlAndMemoryTestsAgree(m[id], start, end);
    }
  }

  /**
   * Inserting a well-ordered booking that no booking of its room conflicts
   * with keeps the store consistent: the test is symmetric between
   * well-ordered intervals, so the new booking conflicts with none either.
   */
  lemma InsertKeepsConsistent(m: map<int, BookingRecord>, b: BookingRecord)
    requires Consistent(m) && b.id !in m && b.start < b.end
    requires !HasConflict(m, b.roomName, b.start, b.end)
    ensures Consistent(m[b.id := b])
  {
    var m' := m[b.id := b];
    forall i, j | i in m' && j in m' && i != j && m'[i].roomName == m'[j].roomName
      ensures !Conflicts(m'[i], m'[j].start, m'[j].end)
    {
      if j == b.id {
        assert !Conflicts(m[i], b.start, b.end);
      } else if i == b.id {
        assert !Conflicts(m[j], b.start, b.end);
        ConflictIsSymmetric(b, m[j]);
      }
    }
  }

  /** Once a well-ordered booking is stored, asking for its room and range again is a conflict. */
  lemma StoredRangeConflicts(m: map<int, BookingRecord>, b: BookingRecord)
    requires Stored(m, b) && b.start < b.end
    ensures HasConflict(m, b.roomName, b.start, b.end)
  {
    IdenticalIntervalsConflict(m[b.id]);
  }

  /**
   * In a consistent store a room has at most one booking covering any
   * instant, so the room is free or held by exactly one booking.
   */
  lemma SingleOccupant(m: map<int, BookingRecord>, a: BookingRecord, b: BookingRecord, t: Instant)
    requires Consistent(m) && Stored(m, a) && Stored(m, b)
    requires a.roomName == b.roomName && ActiveAt(a, t) && ActiveAt(b, t)
    ensures a == b
  {
    if a.id != b.id {
      assert !Conflicts(m[a.id], m[b.id].start, m[b.id].end);
      ConflictIsStrictOverlap(a, b.start, b.end);
    }
  }

  /** Some booking of `room` covers `t`. */
  ghost predicate OccupiedAt(m: map<int, BookingRecord>, room: string, t: Instant)
  {
    exists id :: id in m && m[id].roomName == room && ActiveAt(m[id], t)
  }

  /**
   * In a consistent store the occupant the status scan reports at any
   * instant a booking covers is that booking.
   */
  lemma CoveringBookingIsOccupant(m: map<int, BookingRecord>, b: BookingRecord, hi: int, t: Instant)
    requires KeyedById(m) && Consistent(m) && Stored(m, b) && 1 <= b.id < hi && ActiveAt(b, t)
    ensures Occupant(Collect(m, ByRoom(b.roomName), 1, hi), t) == Some(b)
  {
    var s := Collect(m, ByRoom(b.roomName), 1, hi);
    assert b in s;
    var r := Occupant(s, t);
    SingleOccupant(m, r.value, b, t);
  }

  class InMemoryRepository {
    var rooms: map<string, RoomRecord>
    var bookings: map<int, BookingRecord>
    var admins: map<int, AdminRecord>
    var nextRoomId: int
    var nextBookingId: int

    ghost predicate Valid()
      reads this
    {
      && 1 <= nextRoomId && 1 <= nextBookingId
      && (forall name :: name in rooms ==> rooms[name].name == name && 1 <= rooms[name].id < nextRoomId)
      && KeyedById(bookings)
      && (forall id :: id in bookings ==> 1 <= id < nextBookingId)
      && (forall user :: user in admins ==> admins[user].userId == user)
    }

    constructor ()
      ensures Valid()
      ensures rooms == map[] && bookings == map[] && admins == map[]
      ensures nextRoomId == 1 && nextBookingId == 1
    {
      rooms, bookings, admins := map[], map[], map[];
      nextRoomId, nextBookingId := 1, 1;
    }

    /** Registers a room under a fresh id; an existing room of that name is overwritten. */
    method AddRoom(name: string, capacity: int) returns (roomId: int)
      requires Valid()
      modifies this
      ensures Valid()
      ensures roomId == old(nextRoomId) && nextRoomId == roomId + 1
      ensures rooms == old(rooms)[name := RoomRecord(roomId, name, capacity)]
      ensures GetRoom(name) == Some(RoomRecord(roomId, name, capacity))
      ensures bookings == old(bookings) && admins == old(admins) && nextBookingId == old(nextBookingId)
    {
      roomId := nextRoomId;
      nextRoomId := nextRoomId + 1;
      rooms := rooms[name := RoomRecord(roomId, name, capacity)];
    }

    function GetRoom(name: string): (r: Option<RoomRecord>)
      reads this
      requires Valid()
      ensures r.Some? <==> name in rooms
      ensures r.Some? ==> r.value == rooms[name] && r.value.name == name
    {
      if name in rooms then Some(rooms[name]) else None
    }

    /** All rooms, sorted by name. */
    method GetAllRooms() returns (rs: seq<RoomRecord>)
      requires Valid()
      ensures NamesAscending(rs)
      ensures forall r :: r in rs <==> r.name in rooms && rooms[r.name] == r
      ensures |rs| == |rooms|
    {
      var names := rooms.Keys;
      rs := [];
      while names != {}
        invariant names <= rooms.Keys
        invariant NamesAscending(rs)
        invariant forall r :: r in rs <==> r.name in rooms.Keys - names && rooms[r.name] == r
        invariant |rs| + |names| == |rooms|
        decreases names
      {
        var name :| name in names;
        rs := InsertByName(rooms[name], rs);
        names := names - {name};
      }
    }

    /** Stores a booking under the next id, without any conflict check. */
    method CreateBooking(roomName: string, userId: int, username: string, start: Instant, end: Instant)
      returns (bookingId: int)
      requires Valid()
      modifies this
      ensures Valid()
      ensures bookingId == old(nextBookingId) && nextBookingId == bookingId + 1
      ensures bookingId !in old(bookings)
      ensures forall id :: id in old(bookings) ==> id < bookingId
      ensures bookings == old(bookings)[bookingId := BookingRecord(bookingId, roomName, userId, username, start, end)]
      ensures rooms == old(rooms) && admins == old(admins) && nextRoomId == old(nextRoomId)
    {
      bookingId := nextBookingId;
      nextBookingId := nextBookingId + 1;
      bookings := bookings[bookingId := BookingRecord(bookingId, roomName, userId, username, start, end)];
    }

    function GetBooking(bookingId: int): (r: Option<BookingRecord>)
      reads this
      requires Valid()
      ensures r.Some? <==> bookingId in bookings
      ensures r.Some? ==> r.value.id == bookingId && Stored(bookings, r.value)
    {
      if bookingId in bookings then Some(bookings[bookingId]) else None
    }

    /** The bookings of a room, ascending by start. */
    function GetRoomBookings(roomName: string): (s: seq<BookingRecord>)
      reads this
      requires Valid()
      ensures InStartOrder(s)
      ensures forall b :: b in s <==> Stored(bookings, b) && b.roomName == roomName
    {
      Collect(bookings, ByRoom(roomName), 1, nextBookingId)
    }

    /** The bookings of a user, ascending by start. */
    function GetUserBookings(userId: int): (s: seq<BookingRecord>)
      reads this
      requires Valid()
      ensures InStartOrder(s)
      ensures forall b :: b in s <==> Stored(bookings, b) && b.userId == userId
    {
      Collect(bookings, ByUser(userId), 1, nextBookingId)
    }

    method DeleteBooking(bookingId: int) returns (found: bool)
      requires Valid()
      modifies this
      ensures Valid()
      ensures found <==> bookingId in old(bookings)
      ensures bookings == old(bookings) - {bookingId}
      ensures rooms == old(rooms) && admins == old(admins)
      ensures nextRoomId == old(nextRoomId) && nextBookingId == old(nextBookingId)
    {
      if bookingId in bookings {
        bookings := bookings - {bookingId};
        return true;
      }
      return false;
    }

    /** Deletes every booking of a room and reports how many there were. */
    method DeleteRoomBookings(roomName: string) returns (count: nat)
      requires Valid()
      modifies this
      ensures Valid()
      ensures count == |RoomKeys(old(bookings), roomName)|
      ensures forall id :: id in bookings <==> id in old(bookings) && old(bookings)[id].roomName != roomName
      ensures forall id :: id in bookings ==> bookings[id] == old(bookings)[id]
      ensures GetRoomBookings(roomName) == []
      ensures rooms == old(rooms) && admins == old(admins)
      ensures nextRoomId == old(nextRoomId) && nextBookingId == old(nextBookingId)
    {
      var toDelete := RoomIds(bookings, roomName, 1, nextBookingId);
      var i := 0;
      while i < |toDelete|
        invariant 0 <= i <= |toDelete|
        invariant Valid()
        invariant forall id :: id in bookings <==> id in old(bookings) && id !in toDelete[..i]
        invariant forall id :: id in bookings ==> bookings[id] == old(bookings)[id]
        invariant rooms == old(rooms) && admins == old(admins)
        invariant nextRoomId == old(nextRoomId) && nextBookingId == old(nextBookingId)
      {
        bookings := bookings - {toDelete[i]};
        i := i + 1;
      }
      assert toDelete[..i] == toDelete;
      IncreasingCount(toDelete);
      assert (set id | id in toDelete) == RoomKeys(old(bookings), roomName);
      count := |toDelete|;
      HeadIsMember(GetRoomBookings(roomName));
    }

    /** The user's booking in the room with the latest start, if any. */
    function FindBookingByRoomAndUser(roomName: string, userId: int): (r: Option<BookingRecord>)
      reads this
      requires Valid()
      ensures r.None? <==> forall b :: Stored(bookings, b) ==> !(b.roomName == roomName && b.userId == userId)
      ensures r.Some? ==> Stored(bookings, r.value) && r.value.roomName == roomName && r.value.userId == userId
      ensures r.Some? ==> forall b :: Stored(bookings, b) && b.roomName == roomName && b.userId == userId ==>
                            b.start < r.value.start || (b.start == r.value.start && r.value.id <= b.id)
    {
      Latest(bookings, ByRoomAndUser(roomName, userId), 1, nextBookingId)
    }

    /**
     * The first booking of the room, in insertion order, that satisfies the
     * three-clause conflict test against [start, end); None if there is none.
     */
    method CheckBookingConflict(roomName: string, start: Instant, end: Instant) returns (r: Option<BookingRecord>)
      requires Valid()
      ensures r.None? <==> !HasConflict(bookings, roomName, start, end)
      ensures r.Some? ==> Stored(bookings, r.value) && r.value.roomName == roomName && Conflicts(r.value, start, end)
      ensures r.Some? ==> forall id :: id in bookings && id < r.value.id && bookings[id].roomName == roomName ==>
                            !Conflicts(bookings[id], start, end)
    {
      var id := 1;
      while id < nextBookingId
        invariant 1 <= id <= nextBookingId
        invariant forall k :: k in bookings && k < id && bookings[k].roomName == roomName ==>
                    !Conflicts(bookings[k], start, end)
      {
        if id in bookings {
          var b := bookings[id];
          if b.roomName == roomName && Conflicts(b, start, end) {
            return Some(b);
          }
        }
        id := id + 1;
      }
      return None;
    }

    /** Grants admin rights; an existing entry is overwritten. */
    method AddAdmin(userId: int, username: string)
      requires Valid()
      modifies this
      ensures Valid()
      ensures admins == old(admins)[userId := AdminRecord(userId, username)]
      ensures IsAdmin(userId)
      ensures rooms == old(rooms) && bookings == old(bookings)
      ensures nextRoomId == old(nextRoomId) && nextBookingId == old(nextBookingId)
    {
      admins := admins[userId := AdminRecord(userId, username)];
    }

    /** Revokes admin rights; a user who is not an admin is left as is. */
    method RemoveAdmin(userId: int)
      requires Valid()
      modifies this
      ensures Valid()
      ensures admins == old(admins) - {userId}
      ensures !IsAdmin(userId)
      ensures userId !in old(admins) ==> admins == old(admins)
      ensures rooms == old(rooms) && bookings == old(bookings)
      ensures nextRoomId == old(nextRoomId) && nextBookingId == old(nextBookingId)
    {
      admins := admins - {userId};
    }

    predicate IsAdmin(userId: int)
      reads this
    {
      userId in admins
    }
  }
}
