/**
 * The records the in-memory store keeps (the dictionaries of
 * src/repository.py) and the two time predicates the engine uses: the
 * three-clause conflict test applied when a booking is created, and the
 * half-open occupancy test applied when a room's status is asked for.
 *
 * Instants are integers (seconds). The source stores ISO-8601 strings and
 * compares them as strings; the model assumes that string order is time
 * order, which holds for the naive timestamps the engine writes.
 */
module Domain {

  import opened Wrappers

  /** A point in time, in seconds. */
  type Instant = int

  datatype RoomRecord = RoomRecord(id: int, name: string, capacity: int)

  /** A stored booking; the `created_at` stamp is not modelled. */
  datatype BookingRecord = BookingRecord(
    id: int,
    roomName: string,
    userId: int,
    username: string,
    start: Instant,
    end: Instant)

  /** A stored admin; the `added_at` stamp is not modelled. */
  datatype AdminRecord = AdminRecord(userId: int, username: string)

  /**
   * The conflict test of check_booking_conflict, clause for clause: the
   * stored booking overlaps the request, or the request starts inside the
   * stored booking, or the request ends inside it (end inclusive).
   */
  predicate Conflicts(existing: BookingRecord, start: Instant, end: Instant)
  {
    || (existing.start < end && existing.end > start)
    || (start >= existing.start && start < existing.end)
    || (end > existing.start && end <= existing.end)
  }

  /**
   * The variant the SQLite backend runs, with the roles of the stored and
   * the requested interval swapped in the last two clauses.
   */
  predicate SqlConflicts(existing: BookingRecord, start: Instant, end: Instant)
  {
    || (existing.start < end && existing.end > start)
    || (existing.start >= start && existing.start < end)
    || (existing.end > start && existing.end <= end)
  }

  /** Half-open containment: `t` lies in `[start, end)`. */
  predicate Covers(start: Instant, end: Instant, t: Instant)
  {
    start <= t < end
  }

  predicate ActiveAt(b: BookingRecord, t: Instant)
  {
    Covers(b.start, b.end, t)
  }

  /** For a well-ordered request the three clauses collapse to strict overlap. */
  lemma ConflictIsStrictOverlap(existing: BookingRecord, start: Instant, end: Instant)
    requires start < end
    ensures Conflicts(existing, start, end) <==> existing.start < end && start < existing.end
  {
  }

  /** Booking the very same interval again is a conflict. */
  lemma IdenticalIntervalsConflict(existing: BookingRecord)
    requires existing.start < existing.end
    ensures Conflicts(existing, existing.start, existing.end)
  {
  }

  /** A request that ends where the stored booking starts, or starts where it ends, is no conflict. */
  lemma BackToBackIsNoConflict(existing: BookingRecord, start: Instant, end: Instant)
    requires existing.start < existing.end && start < end
    requires end == existing.start || start == existing.end
    ensures !Conflicts(existing, start, end)
  {
  }

  /** Between well-ordered intervals the test does not depend on which one is stored. */
  lemma ConflictIsSymmetric(a: BookingRecord, b: BookingRecord)
    requires a.start < a.end && b.start < b.end
    ensures Conflicts(a, b.start, b.end) <==> Conflicts(b, a.start, a.end)
  {
    ConflictIsStrictOverlap(a, b.start, b.end);
    ConflictIsStrictOverlap(b, a.start, a.end);
  }

  /** Both backends agree whenever both intervals are well-ordered. */
  lemma SqlAndMemoryTestsAgree(existing: BookingRecord, start: Instant, end: Instant)
    requires existing.start < existing.end && start < end
    ensures SqlConflicts(existing, start, end) <==> Conflicts(existing, start, end)
  {
  }

  /**
   * They differ on an inverted request: [5, 10) against a request from 7
   * back to 3 conflicts in memory (it "starts inside") but not in SQLite.
   */
  lemma InvertedRequestSeparatesBackends()
    ensures Conflicts(BookingRecord(1, "R", 1, "U", 5, 10), 7, 3)
    ensures !SqlConflicts(BookingRecord(1, "R", 1, "U", 5, 10), 7, 3)
  {
  }

  /** Index of the first booking of `s` that covers `t`, or |s| if none does. */
  function FirstActiveIndex(s: seq<BookingRecord>, t: Instant): (k: nat)
    ensures k <= |s|
    ensures forall j :: 0 <= j < k ==> !ActiveAt(s[j], t)
    ensures k < |s| ==> ActiveAt(s[k], t)
  {
    if s == [] then 0
    else if ActiveAt(s[0], t) then 0
    else 1 + FirstActiveIndex(s[1..], t)
  }

  /** The booking that occupies the room at `t`: the first covering one in list order. */
  function Occupant(s: seq<BookingRecord>, t: Instant): (r: Option<BookingRecord>)
    ensures r.None? <==> forall b :: b in s ==> !ActiveAt(b, t)
    ensures r.Some? ==> r.value in s && ActiveAt(r.value, t)
  {
    var k := FirstActiveIndex(s, t);
    if k < |s| then Some(s[k]) else None
  }

  /**
   * The scan that get_room_status, list_available_rooms and
   * Room.get_current_booking each perform: walk the list in order and stop
   * at the first booking whose half-open interval covers `t`.
   */
  method FindCurrent(s: seq<BookingRecord>, t: Instant) returns (r: Option<BookingRecord>)
    ensures r == Occupant(s, t)
  {
    for i := 0 to |s|
      invariant forall j :: 0 <= j < i ==> !ActiveAt(s[j], t)
    {
      if ActiveAt(s[i], t) {
        return Some(s[i]);
      }
    }
    return None;
  }
}
