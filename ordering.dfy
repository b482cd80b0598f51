/**
 * The two orders the store sorts by: rooms by name (Python's string order,
 * lexicographic by code point) and bookings by start time. Python's sort is
 * stable and the store's dictionary yields bookings in insertion order,
 * which is ascending id order, so a listing sorted by start is exactly the
 * order on (start, id).
 */
module Ordering {

  import opened Domain

  /** Lexicographic string order by code point, as Python compares `str`. */
  predicate NameLess(a: string, b: string)
    decreases |a|
  {
    if |a| == 0 then |b| > 0
    else if |b| == 0 then false
    else a[0] < b[0] || (a[0] == b[0] && NameLess(a[1..], b[1..]))
  }

  lemma {:induction false} NameLessIrreflexive(a: string)
    ensures !NameLess(a, a)
    decreases |a|
  {
    if |a| > 0 {
      NameLessIrreflexive(a[1..]);
    }
  }

  lemma {:induction false} NameLessTransitive(a: string, b: string, c: string)
    requires NameLess(a, b) && NameLess(b, c)
    ensures NameLess(a, c)
    decreases |a|
  {
    if |a| > 0 && |b| > 0 && |c| > 0 && a[0] == b[0] && b[0] == c[0] {
      NameLessTransitive(a[1..], b[1..], c[1..]);
    }
  }

  lemma {:induction false} NameLessTotal(a: string, b: string)
    requires a != b
    ensures NameLess(a, b) || NameLess(b, a)
    decreases |a|
  {
    if |a| > 0 && |b| > 0 && a[0] == b[0] {
      assert a == [a[0]] + a[1..] && b == [b[0]] + b[1..];
      NameLessTotal(a[1..], b[1..]);
    }
  }

  /** Strictly ascending by name; so in particular no name occurs twice. */
  predicate NamesAscending(rs: seq<RoomRecord>)
  {
    forall i, j :: 0 <= i < j < |rs| ==> NameLess(rs[i].name, rs[j].name)
  }

  /** Names in an ascending list are pairwise different. */
  lemma AscendingNamesDistinct(rs: seq<RoomRecord>)
    requires NamesAscending(rs)
    ensures forall j, k :: 0 <= j < k < |rs| ==> rs[j].name != rs[k].name
  {
    forall j, k | 0 <= j < k < |rs|
      ensures rs[j].name != rs[k].name
    {
      NameLessIrreflexive(rs[j].name);
    }
  }

  /** Picking entries of an ascending list at increasing positions keeps it ascending. */
  lemma PickedStaysAscending(rs: seq<RoomRecord>, picked: seq<RoomRecord>, at: seq<int>)
    requires NamesAscending(rs)
    requires |at| == |picked|
    requires forall j :: 0 <= j < |at| ==> 0 <= at[j] < |rs| && picked[j] == rs[at[j]]
    requires forall j, k :: 0 <= j < k < |at| ==> at[j] < at[k]
    ensures NamesAscending(picked)
  {
  }

  function InsertByName(r: RoomRecord, rs: seq<RoomRecord>): (out: seq<RoomRecord>)
    requires NamesAscending(rs)
    requires forall x :: x in rs ==> x.name != r.name
    ensures NamesAscending(out)
    ensures |out| == |rs| + 1
    ensures forall x :: x in out <==> x == r || x in rs
  {
    if rs == [] then [r]
    else if NameLess(r.name, rs[0].name) then
      assert forall j :: 0 < j < |rs| ==> NameLess(r.name, rs[j].name) by {
        forall j | 0 < j < |rs| ensures NameLess(r.name, rs[j].name) {
          NameLessTransitive(r.name, rs[0].name, rs[j].name);
        }
      }
      [r] + rs
    else
      NameLessTotal(r.name, rs[0].name);
      var tail := InsertByName(r, rs[1..]);
      assert forall x :: x in tail ==> NameLess(rs[0].name, x.name) by {
        forall x | x in tail ensures NameLess(rs[0].name, x.name) {
          if x != r {
            var j :| 0 <= j < |rs[1..]| && rs[1..][j] == x;
            assert rs[j + 1] == x;
          }
        }
      }
      [rs[0]] + tail
  }

  lemma HeadIsMember<T>(s: seq<T>)
    ensures |s| == 0 || s[0] in s
  {
  }

  /**
   * A strictly name-ascending list is determined by its elements: however
   * the rooms were enumerated, the sorted listing is the same.
   */
  lemma {:induction false} AscendingListIsUnique(a: seq<RoomRecord>, b: seq<RoomRecord>)
    requires NamesAscending(a) && NamesAscending(b)
    requires forall x :: x in a <==> x in b
    ensures a == b
    decreases |a|
  {
    if a == [] {
      HeadIsMember(b);
    } else {
      assert b != [] by {
        assert a[0] in b;
      }
      if a[0] != b[0] {
        assert b[0] in a && a[0] in b;
        var i :| 0 <= i < |a| && a[i] == b[0];
        var j :| 0 <= j < |b| && b[j] == a[0];
        assert i > 0 && j > 0;
        NameLessTransitive(a[0].name, a[i].name, a[0].name);
        NameLessIrreflexive(a[0].name);
      }
      forall x | x in a[1..] ensures x in b[1..] {
        var i :| 0 <= i < |a[1..]| && a[1..][i] == x;
        NameLessIrreflexive(a[0].name);
        assert x != a[0] by {
          assert NameLess(a[0].name, a[i + 1].name);
        }
        assert x in a && x in b;
        var j :| 0 <= j < |b| && b[j] == x;
        assert j > 0;
        assert b[1..][j - 1] == x;
      }
      forall x | x in b[1..] ensures x in a[1..] {
        var j :| 0 <= j < |b[1..]| && b[1..][j] == x;
        NameLessIrreflexive(b[0].name);
        assert x != b[0] by {
          assert NameLess(b[0].name, b[j + 1].name);
        }
        assert x in b && x in a;
        var i :| 0 <= i < |a| && a[i] == x;
        assert i > 0;
        assert a[1..][i - 1] == x;
      }
      AscendingListIsUnique(a[1..], b[1..]);
      assert a == [a[0]] + a[1..] && b == [b[0]] + b[1..];
    }
  }

  /** Booking order of the listings: by start, ties by id (insertion order). */
  predicate StartsBefore(a: BookingRecord, b: BookingRecord)
  {
    a.start < b.start || (a.start == b.start && a.id < b.id)
  }

  predicate InStartOrder(s: seq<BookingRecord>)
  {
    forall i, j :: 0 <= i < j < |s| ==> StartsBefore(s[i], s[j])
  }

  function InsertByStart(b: BookingRecord, s: seq<BookingRecord>): (out: seq<BookingRecord>)
    requires InStartOrder(s)
    requires forall x :: x in s ==> x.id != b.id
    ensures InStartOrder(out)
    ensures |out| == |s| + 1
    ensures forall x :: x in out <==> x == b || x in s
  {
    if s == [] then [b]
    else if StartsBefore(b, s[0]) then [b] + s
    else
      var tail := InsertByStart(b, s[1..]);
      assert forall x :: x in tail ==> StartsBefore(s[0], x) by {
        forall x | x in tail ensures StartsBefore(s[0], x) {
          if x != b {
            var j :| 0 <= j < |s[1..]| && s[1..][j] == x;
            assert s[j + 1] == x;
          }
        }
      }
      [s[0]] + tail
  }
}
