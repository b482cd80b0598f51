/**
 * RoomBookingService: the business layer over the store. It books a room
 * for a time range written as text, releases the caller's booking, and
 * reports occupancy. It owns no state of its own beyond the store.
 *
 * Outcomes are values rather than the source's localised messages. The
 * current date and time, which the source reads from the clock, are
 * parameters.
 */
module Service {

  import opened Wrappers
  import opened Domain
  import opened Ordering
  import opened Repository
  import opened TimeRange

  /** Why a request was refused. */
  datatype Failure =
    | RoomNotFound
    | InvalidFormat
    | InvalidRange
    | Conflict(existing: BookingRecord)
    | NotOwner

  datatype BookResult = Booked(bookingId: int) | BookRefused(reason: Failure)
  {
    predicate Success()
    {
      Booked?
    }

    function BookingId(): Option<int>
    {
      if Booked? then Some(bookingId) else None
    }
  }

  datatype ReleaseResult = Released | ReleaseRefused(reason: Failure)

  /** The status reply: whether the room was found, whether it is occupied, and by which booking. */
  datatype StatusReply = StatusReply(success: bool, isOccupied: bool, booking: Option<BookingRecord>)

  /**
   * What the room scan leaves behind, restated per room name: every room was
   * visited, the free ones are listed and the occupied ones mapped.
   */
  lemma ScanCoversAllRooms(roomMap: map<string, RoomRecord>, rooms: seq<RoomRecord>,
                           seen: map<string, Option<BookingRecord>>,
                           available: seq<RoomRecord>, occupied: map<string, Instant>)
    requires forall name :: name in roomMap ==> roomMap[name].name == name
    requires forall r :: r in rooms <==> r.name in roomMap && roomMap[r.name] == r
    requires forall k :: 0 <= k < |rooms| ==> rooms[k].name in seen
    requires forall name :: name in seen ==> name in roomMap
    requires forall x :: x in available ==> x in rooms && x.name in seen && seen[x.name].None?
    requires forall k :: 0 <= k < |rooms| && seen[rooms[k].name].None? ==> rooms[k] in available
    requires forall name :: name in occupied ==>
               name in seen && seen[name].Some? && occupied[name] == seen[name].value.end
    requires forall k :: 0 <= k < |rooms| && seen[rooms[k].name].Some? ==> rooms[k].name in occupied
    ensures forall name :: name in roomMap ==> name in seen
    ensures forall x :: x in available ==> x.name in roomMap && roomMap[x.name] == x && seen[x.name].None?
    ensures forall name :: name in roomMap && seen[name].None? ==> roomMap[name] in available
    ensures forall name :: name in occupied <==> name in roomMap && seen[name].Some?
    ensures forall name :: name in occupied ==> occupied[name] == seen[name].value.end
  {
    forall name | name in roomMap
      ensures name in seen
      ensures seen[name].None? ==> roomMap[name] in available
      ensures seen[name].Some? ==> name in occupied
    {
      assert roomMap[name] in rooms;
      var k :| 0 <= k < |rooms| && rooms[k] == roomMap[name];
    }
  }

  class RoomBookingService {
    const repo: InMemoryRepository

    constructor (repository: InMemoryRepository)
      ensures repo == repository
    {
      repo := repository;
    }

    /**
     * Books `roomName` for `timeRange` on day `today`: the room must exist,
     * the text must parse, and no booking of the room may conflict;
     * otherwise the store is left as it was.
     */
    method BookRoom(roomName: string, userId: int, username: string, timeRange: string, today: int)
      returns (r: BookResult)
      requires repo.Valid()
      modifies repo
      ensures repo.Valid()
      ensures roomName !in old(repo.rooms) ==> r == BookRefused(RoomNotFound)
      ensures roomName in old(repo.rooms) && ParseTimeRange(timeRange, today).BadFormat? ==>
                r == BookRefused(InvalidFormat)
      ensures roomName in old(repo.rooms) && ParseTimeRange(timeRange, today).BadRange? ==>
                r == BookRefused(InvalidRange)
      ensures roomName in old(repo.rooms) && ParseTimeRange(timeRange, today).Parsed? ==>
                var p := ParseTimeRange(timeRange, today);
                (r.Booked? <==> !HasConflict(old(repo.bookings), roomName, p.start, p.end))
      ensures roomName in old(repo.rooms) && ParseTimeRange(timeRange, today).Parsed? ==>
                var p := ParseTimeRange(timeRange, today);
                HasConflict(old(repo.bookings), roomName, p.start, p.end) ==> r.BookRefused? && r.reason.Conflict?
      ensures r.BookRefused? ==> !r.Success() && r.BookingId().None? && unchanged(repo)
      ensures r.BookRefused? && r.reason.Conflict? ==>
                var p := ParseTimeRange(timeRange, today);
                && p.Parsed?
                && Stored(old(repo.bookings), r.reason.existing)
                && r.reason.existing.roomName == roomName
                && Conflicts(r.reason.existing, p.start, p.end)
                && forall id :: id in old(repo.bookings) && id < r.reason.existing.id &&
                                old(repo.bookings)[id].roomName == roomName ==>
                                  !Conflicts(old(repo.bookings)[id], p.start, p.end)
      ensures r.Booked? ==>
                var p := ParseTimeRange(timeRange, today);
                && p.Parsed?
                && r.BookingId() == Some(old(repo.nextBookingId))
                && (forall id :: id in old(repo.bookings) ==> id < r.bookingId)
                && repo.nextBookingId == old(repo.nextBookingId) + 1 && repo.nextRoomId == old(repo.nextRoomId)
                && repo.bookings == old(repo.bookings)[r.bookingId :=
                     BookingRecord(r.bookingId, roomName, userId, username, p.start, p.end)]
                && repo.rooms == old(repo.rooms) && repo.admins == old(repo.admins)
      ensures Consistent(old(repo.bookings)) ==> Consistent(repo.bookings)
      ensures r.Booked? && Consistent(old(repo.bookings)) ==>
                forall t :: repo.bookings[r.bookingId].start <= t < repo.bookings[r.bookingId].end ==>
                  Occupant(repo.GetRoomBookings(roomName), t) == Some(repo.bookings[r.bookingId])
    {
      if repo.GetRoom(roomName).None? {
        return BookRefused(RoomNotFound);
      }
      match ParseTimeRange(timeRange, today)
      case BadFormat =>
        return BookRefused(InvalidFormat);
      case BadRange =>
        return BookRefused(InvalidRange);
      case Parsed(start, end) =>
        var conflict := repo.CheckBookingConflict(roomName, start, end);
        if conflict.Some? {
          return BookRefused(Conflict(conflict.value));
        }
        ghost var before := repo.bookings;
        var bookingId := repo.CreateBooking(roomName, userId, username, start, end);
        ghost var b := BookingRecord(bookingId, roomName, userId, username, start, end);
        if Consistent(before) {
          InsertKeepsConsistent(before, b);
          forall t | start <= t < end
            ensures Occupant(repo.GetRoomBookings(roomName), t) == Some(b)
          {
            CoveringBookingIsOccupant(repo.bookings, b, repo.nextBookingId, t);
          }
        }
        return Booked(bookingId);
    }

    /**
     * Releases the caller's booking of `roomName`: the one of theirs with
     * the latest start. A caller with no booking there is refused, whoever
     * else holds the room.
     */
    method ReleaseRoom(roomName: string, userId: int) returns (r: ReleaseResult)
      requires repo.Valid()
      modifies repo
      ensures repo.Valid()
      ensures roomName !in old(repo.rooms) ==> r == ReleaseRefused(RoomNotFound) && unchanged(repo)
      ensures roomName in old(repo.rooms) && old(repo.FindBookingByRoomAndUser(roomName, userId)).None? ==>
                r == ReleaseRefused(NotOwner) && unchanged(repo)
      ensures roomName in old(repo.rooms) && old(repo.FindBookingByRoomAndUser(roomName, userId)).Some? ==>
                && r == Released
                && repo.bookings == old(repo.bookings) - {old(repo.FindBookingByRoomAndUser(roomName, userId)).value.id}
                && repo.rooms == old(repo.rooms) && repo.admins == old(repo.admins)
                && repo.nextRoomId == old(repo.nextRoomId) && repo.nextBookingId == old(repo.nextBookingId)
      ensures Consistent(old(repo.bookings)) ==> Consistent(repo.bookings)
    {
      if repo.GetRoom(roomName).None? {
        return ReleaseRefused(RoomNotFound);
      }
      var booking := repo.FindBookingByRoomAndUser(roomName, userId);
      if booking.None? {
        return ReleaseRefused(NotOwner);
      }
      var deleted := repo.DeleteBooking(booking.value.id);
      // The found booking is stored under its id, so the delete always succeeds.
      assert deleted;
      return Released;
    }

    /** Whether `roomName` is occupied at `t`, and by the first covering booking in start order. */
    method GetRoomStatus(roomName: string, t: Instant) returns (r: StatusReply)
      requires repo.Valid()
      ensures roomName !in repo.rooms ==> r == StatusReply(false, false, None)
      ensures roomName in repo.rooms ==> r.success && r.booking == Occupant(repo.GetRoomBookings(roomName), t)
      ensures roomName in repo.rooms ==> (r.isOccupied <==> OccupiedAt(repo.bookings, roomName, t))
      ensures r.isOccupied <==> r.booking.Some?
    {
      if repo.GetRoom(roomName).None? {
        return StatusReply(false, false, None);
      }
      var bookings := repo.GetRoomBookings(roomName);
      var current := FindCurrent(bookings, t);
      if current.Some? {
        r := StatusReply(true, true, current);
      } else {
        r := StatusReply(true, false, None);
        forall id | id in repo.bookings && repo.bookings[id].roomName == roomName
          ensures !ActiveAt(repo.bookings[id], t)
        {
          assert repo.bookings[id] in bookings;
        }
      }
    }

    /**
     * Splits the rooms at `t`: the free ones in name order, and the occupied
     * ones mapped to the end of the booking that holds them.
     */
    method ListAvailableRooms(t: Instant) returns (available: seq<RoomRecord>, occupied: map<string, Instant>)
      requires repo.Valid()
      ensures NamesAscending(available)
      ensures forall x :: x in available ==>
                x.name in repo.rooms && repo.rooms[x.name] == x && Occupant(repo.GetRoomBookings(x.name), t).None?
      ensures forall name :: name in repo.rooms && Occupant(repo.GetRoomBookings(name), t).None? ==>
                repo.rooms[name] in available
      ensures forall name :: name in occupied <==>
                name in repo.rooms && Occupant(repo.GetRoomBookings(name), t).Some?
      ensures forall name :: name in occupied ==> occupied[name] == Occupant(repo.GetRoomBookings(name), t).value.end
      ensures forall x :: x in available ==> x.name !in occupied
    {
      var rooms := repo.GetAllRooms();
      AscendingNamesDistinct(rooms);
      assert forall k :: 0 <= k < |rooms| ==> rooms[k].name in repo.rooms by {
        forall k | 0 <= k < |rooms| ensures rooms[k].name in repo.rooms {
          assert rooms[k] in rooms;
        }
      }
      ghost var seen, at;
      available, occupied, seen, at := ScanRooms(rooms, t);
      PickedStaysAscending(rooms, available, at);
      ScanCoversAllRooms(repo.rooms, rooms, seen, available, occupied);
    }

    /**
     * The loop of `ListAvailableRooms`: visits `rooms` in order, recording in
     * `seen` the occupant found for each, and in `at` where in `rooms` each
     * entry of `available` came from.
     */
    method ScanRooms(rooms: seq<RoomRecord>, t: Instant)
      returns (available: seq<RoomRecord>, occupied: map<string, Instant>,
               ghost seen: map<string, Option<BookingRecord>>, ghost at: seq<int>)
      requires repo.Valid()
      requires forall j, k :: 0 <= j < k < |rooms| ==> rooms[j].name != rooms[k].name
      requires forall k :: 0 <= k < |rooms| ==> rooms[k].name in repo.rooms
      ensures forall k :: 0 <= k < |rooms| ==> rooms[k].name in seen
      ensures forall name :: name in seen ==> name in repo.rooms
      ensures forall name {:trigger Occupant(repo.GetRoomBookings(name), t)} ::
                name in seen ==> seen[name] == Occupant(repo.GetRoomBookings(name), t)
      ensures |at| == |available|
      ensures forall j :: 0 <= j < |at| ==> 0 <= at[j] < |rooms| && available[j] == rooms[at[j]]
      ensures forall j, k :: 0 <= j < k < |at| ==> at[j] < at[k]
      ensures forall x :: x in available ==> x in rooms && x.name in seen && seen[x.name].None?
      ensures forall k :: 0 <= k < |rooms| && seen[rooms[k].name].None? ==> rooms[k] in available
      ensures forall name :: name in occupied ==>
                name in seen && seen[name].Some? && occupied[name] == seen[name].value.end
      ensures forall k :: 0 <= k < |rooms| && seen[rooms[k].name].Some? ==> rooms[k].name in occupied
    {
      seen, at := map[], [];
      available, occupied := [], map[];
      for i := 0 to |rooms|
        invariant forall k :: 0 <= k < i ==> rooms[k].name in seen
        invariant forall k :: i <= k < |rooms| ==> rooms[k].name !in seen
        invariant forall name :: name in seen ==> name in repo.rooms
        invariant forall name {:trigger Occupant(repo.GetRoomBookings(name), t)} ::
                    name in seen ==> seen[name] == Occupant(repo.GetRoomBookings(name), t)
        invariant |at| == |available|
        invariant forall j :: 0 <= j < |at| ==> 0 <= at[j] < i && available[j] == rooms[at[j]]
        invariant forall j, k :: 0 <= j < k < |at| ==> at[j] < at[k]
        invariant forall x :: x in available ==> x in rooms && x.name in seen && seen[x.name].None?
        invariant forall k :: 0 <= k < i && seen[rooms[k].name].None? ==> rooms[k] in available
        invariant forall name :: name in occupied ==>
                    name in seen && seen[name].Some? && occupied[name] == seen[name].value.end
        invariant forall k :: 0 <= k < i && seen[rooms[k].name].Some? ==> rooms[k].name in occupied
      {
        var room := rooms[i];
        assert room.name !in seen;
        var found := FindCurrent(repo.GetRoomBookings(room.name), t);
        seen := seen[room.name := found];
        if found.Some? {
          occupied := occupied[room.name := found.value.end];
        } else {
          at := at + [i];
          available := available + [room];
        }
      }
    }

    /** The caller's bookings in start order. */
    function GetUserBookings(userId: int): (s: seq<BookingRecord>)
      reads repo
      requires repo.Valid()
      ensures InStartOrder(s)
      ensures forall b :: b in s <==> Stored(repo.bookings, b) && b.userId == userId
    {
      repo.GetUserBookings(userId)
    }
  }
}
