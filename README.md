# Room booking engine in Dafny

This project models the reservation engine of a meeting-room booking bot. It has three layers:

- **The in-memory store.** `InMemoryRepository` keeps rooms by name, bookings by id and admins by user id, together with the two id counters. It answers the filtered and sorted booking queries. It also runs the three-clause conflict test used before a booking is created.
- **The booking service.** `RoomBookingService` parses `H:MM-HH:MM` ranges, books and releases rooms, and reports which rooms are free or occupied at a given instant.
- **The model objects.** `Room` and `Booking` wrap store records. They repeat the same rules: conflict-guarded creation, the half-open "is active" test, ownership, and the current-booking search.

Modules, one per file:

- `Wrappers`: `Option`.
- `Domain`: the records, the conflict test, the half-open cover test and the current-booking scan.
- `Ordering`: name order and start order.
- `Repository`: the store.
- `TimeRange`: the parser.
- `Service`: the service.
- `Models`: `Room` and `Booking`.

Assumptions made throughout:

- **Instants are integers (seconds).** The source compares ISO-8601 strings. The model assumes that string order of those timestamps is time order, which holds for timestamps of one format and zone.
- **Iteration order is ascending id.** Python dictionaries iterate in insertion order. Booking ids come from a counter that only grows, and a deleted id is never reused, so insertion order is ascending id order. Every loop over the store therefore walks ids upwards from 1.
  - A listing sorted by start keeps equal starts in id order, because the sort is stable.
  - "Latest booking of a user in a room" returns the maximal start, with ties going to the smallest id; a stable sort in reverse keeps equal keys in their original order.
  - The conflict check returns the first conflicting booking by id.
- **The clock is a parameter.** The current day (`today`) and the current instant (`t`) are arguments.

Three behaviours of the code that are easy to get wrong, and that the model reproduces:

- `add_room` overwrites an existing room of the same name; it does not fail.
- Release is refused only when the caller has no booking in the room. When the caller's own latest booking exists, it is deleted even if another user currently holds the room.
- For well-ordered intervals the three-clause conflict test is exactly strict overlap, so back-to-back bookings never conflict (`Domain.BackToBackIsNoConflict`). The extra clauses only matter for an inverted request.

`Room` and `Booking` are written against the SQLite database class. They use its `get_room_bookings`, `create_booking` and `delete_booking`, which behave like the in-memory store's, and its `check_booking_conflict`, whose SQL runs the role-swapped variant of the conflict test. The model objects therefore work on the same maps as the store, but their conflict query (`Models.DatabaseConflict`) uses that SQLite variant. It agrees with the in-memory test on well-ordered data (`Repository.SqlConflictMatchesMemory`).

## Model

| member | source | states |
|---|---|---|
| Domain.Conflicts | src/repository.py:292-296 | the in-memory conflict test, clause for clause: overlap, request starting inside the stored booking, or request ending inside it (end inclusive) |
| Domain.SqlConflicts | src/database.py:216-227 | the SQLite conflict test, clause for clause, with the stored and requested intervals swapped in the last two clauses |
| Domain.ConflictIsStrictOverlap | src/repository.py:292-296 | for a well-ordered request the three clauses hold iff the stored booking strictly overlaps it |
| Domain.IdenticalIntervalsConflict | src/repository.py:292-296 | booking exactly the stored interval again is a conflict |
| Domain.BackToBackIsNoConflict | src/repository.py:292-296 | a request ending where the stored booking starts, or starting where it ends, is no conflict |
| Domain.ConflictIsSymmetric | src/repository.py:292-296 | between well-ordered intervals the test does not depend on which one is stored |
| Domain.SqlAndMemoryTestsAgree | src/database.py:216-227 | the SQLite variant, with the roles swapped in two clauses, agrees with the in-memory test when both intervals are well-ordered |
| Domain.InvertedRequestSeparatesBackends | src/database.py:216-227 | the two variants disagree on an inverted request, [5, 10) against 7..3 |
| Domain.FirstActiveIndex | src/service.py:251-255 | the index of the first booking covering t: every earlier booking does not cover t, and the one at that index does |
| Domain.Occupant | src/service.py:251-255 | None iff no booking of the list covers t; otherwise a member of the list that covers t |
| Domain.FindCurrent | src/service.py:251-255 | the scan with early exit returns exactly the first covering booking |
| Ordering.NameLessIrreflexive | src/repository.py:198-200 | no name sorts before itself |
| Ordering.NameLessTransitive | src/repository.py:198-200 | name order is transitive |
| Ordering.NameLessTotal | src/repository.py:198-200 | of two different names one sorts first |
| Ordering.AscendingNamesDistinct | src/repository.py:198-200 | a list sorted by name has no repeated name |
| Ordering.InsertByName | src/repository.py:198-200 | insertion into a name-sorted list keeps it sorted, adds one element and keeps every other one |
| Ordering.AscendingListIsUnique | src/repository.py:198-200 | two name-sorted lists with the same members are equal, so the sorted room list is determined by the rooms |
| Ordering.PickedStaysAscending | src/service.py:70-85 | keeping entries of a sorted list in their order keeps it sorted |
| Ordering.InsertByStart | src/repository.py:228-234 | insertion into a list in (start, id) order keeps that order, adds one element and keeps every other one |
| Repository.Collect | src/repository.py:228-242 | the selected bookings with ids in a range, in (start, id) order: a booking is listed iff it is stored, in range and selected |
| Repository.Latest | src/repository.py:261-274 | None iff no booking in range is selected; otherwise a selected stored booking with the greatest start, the smallest id among equal starts |
| Repository.RoomIds | src/repository.py:253-256 | the ids of a room's bookings, strictly increasing: an id is listed iff it is stored with that room |
| Repository.IncreasingCount | src/repository.py:259 | a strictly increasing id list is as long as its set of ids, so the returned count is the number of bookings of the room |
| Repository.SqlConflictMatchesMemory | src/database.py:216-227 | over well-ordered bookings and a well-ordered request, some booking of the room satisfies the SQLite test iff some satisfies the in-memory test |
| Repository.InsertKeepsConsistent | src/service.py:133-159 | inserting a well-ordered booking that no booking of its room conflicts with keeps every booking well-ordered and no two of a room conflicting |
| Repository.StoredRangeConflicts | tests/unit/test_service.py:89-96 | once a well-ordered booking is stored, requesting the same room and range again is a conflict |
| Repository.SingleOccupant | src/service.py:251-255 | in a consistent store two bookings of a room that both cover t are the same booking |
| Repository.CoveringBookingIsOccupant | src/service.py:247-255 | in a consistent store the status scan reports, at any instant a stored booking covers, that booking |
| Repository.InMemoryRepository.constructor | src/repository.py:175-181 | starts with empty maps and both counters at 1 |
| Repository.InMemoryRepository.AddRoom | src/repository.py:183-192 | returns the old room counter and increments it; the room is stored under its name, overwriting an earlier one; nothing else changes |
| Repository.InMemoryRepository.GetRoom | src/repository.py:194-196 | Some iff a room of that name exists, and then that room |
| Repository.InMemoryRepository.GetAllRooms | src/repository.py:198-200 | every stored room exactly once, sorted by name |
| Repository.InMemoryRepository.CreateBooking | src/repository.py:202-222 | returns the old booking counter, which is no existing id and larger than all of them; adds exactly that booking with the given fields; nothing else changes |
| Repository.InMemoryRepository.GetBooking | src/repository.py:224-226 | Some iff the id is stored, and then the booking stored under it |
| Repository.InMemoryRepository.GetRoomBookings | src/repository.py:228-234 | exactly the stored bookings of the room, in start order |
| Repository.InMemoryRepository.GetUserBookings | src/repository.py:236-242 | exactly the stored bookings of the user, in start order |
| Repository.InMemoryRepository.DeleteBooking | src/repository.py:244-249 | true iff the id was stored; afterwards it is absent and every other booking is unchanged |
| Repository.InMemoryRepository.DeleteRoomBookings | src/repository.py:251-259 | returns how many bookings the room had; afterwards exactly the other rooms' bookings remain, unchanged, and the room lists no booking |
| Repository.InMemoryRepository.FindBookingByRoomAndUser | src/repository.py:261-274 | None iff the user has no booking in the room; otherwise their booking there with the latest start |
| Repository.InMemoryRepository.CheckBookingConflict | src/repository.py:276-299 | None iff no booking of the room satisfies the test; otherwise a stored booking of that room that satisfies it, the first by id |
| Repository.InMemoryRepository.AddAdmin | src/repository.py:301-307 | the user becomes an admin (an existing entry is overwritten); nothing else changes |
| Repository.InMemoryRepository.RemoveAdmin | src/repository.py:309-311 | the user is no longer an admin; removing a non-admin changes nothing |
| Repository.InMemoryRepository.IsAdmin | src/repository.py:313-315 | a user is an admin iff the admin map holds them; `AddAdmin` makes it true and `RemoveAdmin` false |
| TimeRange.AtReadsBack | src/service.py:36-39 | an hour and minute placed on today read back as that day, hour and minute |
| TimeRange.MatchRange | src/service.py:28 | the regular expression: split at the first hyphen after dropping one final newline, both halves `\d{1,2}:\d{2}` tokens |
| TimeRange.ParseTimeRange | src/service.py:15-46 | an accepted range starts before it ends and lies on today |
| TimeRange.ScanFormatted | src/service.py:28 | a clock written as `H:MM` or `HH:MM` is read back as that clock |
| TimeRange.ScanIsFormatted | src/service.py:28 | every token the pattern accepts is such a rendering of the clock it reads |
| TimeRange.ParseFormatted | src/service.py:28-46 | a rendered range, with or without one final newline, parses to its two instants on today; it is refused as a format error when an hour passes 23 or a minute 59, and as a range error when start is not before end |
| TimeRange.AcceptedIsFormatted | src/service.py:28-46 | every text that is not a format error is a rendering of two valid clocks, and parses to their instants or is a range error accordingly |
| TimeRange.UnrenderedIsBadFormat | src/service.py:28-30 | a text that is not two valid clocks rendered around a hyphen, with at most one final newline, is a format error |
| TimeRange.ParseTwoDigitHours | tests/unit/test_service.py:202-208 | "15:00-16:00" parses to 15:00 and 16:00 today |
| TimeRange.ParsePaddedHour | tests/unit/test_service.py:210-216 | "09:30-10:45" parses to 9:30 and 10:45 today |
| TimeRange.ParseOneDigitHour | tests/unit/test_service.py:218-222 | "9:00-10:00" is accepted |
| TimeRange.ParseHourOutOfRange | tests/unit/test_service.py:236-240 | "25:00-26:00" is a format error |
| TimeRange.ParseInvertedRange | tests/unit/test_service.py:242-246 | "16:00-15:00" is a range error |
| TimeRange.ParseEmptyRange | tests/unit/test_service.py:248-252 | "15:00-15:00" is a range error |
| TimeRange.NoHyphenIsBadFormat | tests/unit/test_service.py:224-234 | a text without a hyphen is a format error |
| Service.ScanCoversAllRooms | src/service.py:70-85 | after the scan every room is either listed as free or mapped as occupied, never both |
| Service.RoomBookingService.constructor | src/service.py:11-13 | the service works on the given store |
| Service.RoomBookingService.BookRoom | src/service.py:114-165 | an unknown room, a bad format and a bad range each refuse without touching the store; a parsed range that some booking of the room conflicts with is refused as a conflict naming the first such booking by id, store untouched; otherwise exactly one booking with the parsed interval is added under the old counter, which exceeds every existing id, the booking counter advances by one and nothing else changes; consistency is preserved, and the new booking is what the status scan reports throughout its interval |
| Service.RoomBookingService.ReleaseRoom | src/service.py:184-213 | an unknown room, or a caller with no booking in the room, is refused and changes nothing; otherwise exactly the caller's latest-start booking there is deleted and rooms, admins and both counters stay; consistency is preserved |
| Service.RoomBookingService.GetRoomStatus | src/service.py:234-272 | an unknown room gives (false, false, None); otherwise the reply names the first booking in start order that covers t, and says occupied iff some booking of the room covers t |
| Service.RoomBookingService.ListAvailableRooms | src/service.py:61-90 | the free rooms in name order, each a stored room, and every free room among them; a room is mapped as occupied iff some booking holds it at t, to that booking's end; no room is both |
| Service.RoomBookingService.ScanRooms | src/service.py:70-85 | the loop visits every room and records for each the booking holding it at t, listing the free ones in visiting order and mapping the occupied ones |
| Service.RoomBookingService.GetUserBookings | src/service.py:274-276 | exactly the user's stored bookings, in start order |
| Models.DatabaseConflict | src/database.py:199-230 | None iff no booking of the room satisfies the SQLite test; otherwise a stored booking of the room that satisfies it |
| Models.Room.IsAvailable | src/models.py:43-50 | free iff the database finds no conflicting booking of the room; when free, no booking of the room overlaps the range; for a well-ordered range over well-ordered bookings, free iff the in-memory test finds none either |
| Models.Room.GetCurrentBooking | src/models.py:52-61 | None iff no booking of the room covers t; otherwise the first covering booking in start order, wrapped, which is active at t |
| Models.Booking.Create | src/models.py:95-127 | None iff the database finds a conflicting booking of the room, and then the store is untouched; otherwise exactly one booking is added under the old counter, the booking counter advances, everything else stays, and the result carries that id and the given fields; consistency is preserved for a well-ordered range |
| Models.Booking.Delete | src/models.py:156-160 | a booking without an id deletes nothing and reports false; otherwise the result and the new store are those of the store's delete |
| Models.Booking.IsOwner | src/models.py:162-164 | owned by u iff the booking's user is u |
| Models.Booking.IsActive | src/models.py:166-169 | active at t iff start <= t < end |
| Models.FromDict | src/models.py:143-154 | the wrapped booking carries the record's id, room and user |
| Models.ToRecord | src/models.py:143-154 | a booking has a record iff it has an id, with the same id, room and user |
| Models.FromDictRoundTrip | src/models.py:143-154 | wrapping a record and reading it back gives the record, and the other way round |
| Models.FromDictKeepsMeaning | src/models.py:162-169 | a wrapped record is active at t iff the record covers t, and owned by u iff its user is u |
| Models.ActiveFromStartUntilEnd | src/models.py:166-169 | a non-empty booking is active at its start, not at its end, and exactly on [start, end) |
| Models.OneActiveBookingPerRoom | src/models.py:166-169 | in a consistent store at most one booking of a room is active at any instant |

## Left out

- The SQLite backend (`Database`, `SQLiteRepository`): connections, transactions and schema. The store's behaviour is modelled on the in-memory repository. Of the SQL, only the conflict query the model objects send is modelled (`Models.DatabaseConflict`). Its row is the first match by id, while SQLite's `LIMIT 1` without `ORDER BY` may return any matching row; its contract therefore promises only some matching row.
- The Telegram bot: handlers, polling and message texts. Outcomes are datatypes (`Failure`, `BookResult`, `ReleaseResult`, `StatusReply`), not localised strings.
- The clock: `datetime.now()` is replaced by the `today` and `t` parameters. `created_at` and `added_at` stamps are not stored.
- `isoformat` / `fromisoformat` / `strftime`: instants are integers. The model assumes string order of stored timestamps is time order.
- Sub-second parts of the current time are not modelled.
- `get_all_admins`: it sorts by the `added_at` clock stamp, which is not modelled.
- `list_all_rooms`: plain delegation to `get_all_rooms`.
- Timezone handling, settings, and service-level room and admin management. Their implementations are not part of this model.
- Concurrency: the check-then-insert race in `book_room` and `Booking.create` is out of scope. Consistency is claimed for sequential calls only.
- Service.RoomBookingService.ListAvailableRooms: `occupied` maps a room to the end instant of its booking, not to that instant rendered as `HH:MM`.
- Service.RoomBookingService.BookRoom: an hour or minute out of range and a text that does not match the pattern both give `InvalidFormat`. The source reports them with different message texts.
- Service.RoomBookingService.ReleaseRoom: the source's "could not release" reply is not modelled. It follows a failed delete, which cannot happen here because the booking just found is stored under its own id.
- TimeRange.ParseTimeRange: `\d` also matches non-ASCII decimal digits in Python. The model accepts ASCII digits only.
- `Room.create`, `Room.get`, `Room.get_all`, `Room.get_all_bookings`, `Booking.get`, `Booking.get_user_bookings`: these are one-line wrappers over store queries already modelled. `get_end_time_formatted` and `__repr__` are display formatting.
