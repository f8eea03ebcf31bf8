/** The read queries of the booking repository over the bookings table, a map from id to row. */
module BookingRepository {
  import opened Domain

  /** Two stays overlap when each starts before the other ends: the intervals are half-open,
      `[checkIn, checkOut)`, so a stay that ends when another begins does not overlap it. */
  predicate Overlaps(a: Booking, b: Booking) {
    a.checkIn < b.checkOut && b.checkIn < a.checkOut
  }

  /** The row filter of FindActiveByRoom: on the room, PENDING or CONFIRMED,
      `check_in < checkOut` and `check_out > checkIn`. */
  predicate ConflictsWith(b: Booking, roomId: Id, checkIn: int, checkOut: int) {
    b.roomId == roomId && IsActive(b) && b.checkIn < checkOut && b.checkOut > checkIn
  }

  /** The ids of the active bookings on `roomId` whose stay overlaps `[checkIn, checkOut)`. */
  function FindActiveByRoom(bookings: map<Id, Booking>, roomId: Id, checkIn: int, checkOut: int): (r: set<Id>)
    ensures r <= bookings.Keys
  {
    set id | id in bookings && ConflictsWith(bookings[id], roomId, checkIn, checkOut)
  }

  /** A row is reported exactly when it is an active booking on the room that overlaps a stay
      with the requested dates. */
  lemma FindActiveByRoomExact(bookings: map<Id, Booking>, roomId: Id, checkIn: int, checkOut: int, id: Id, probe: Booking)
    requires probe.checkIn == checkIn && probe.checkOut == checkOut
    ensures id in FindActiveByRoom(bookings, roomId, checkIn, checkOut) <==>
              id in bookings && bookings[id].roomId == roomId && IsActive(bookings[id]) && Overlaps(bookings[id], probe)
  {
  }

  /** Back-to-back stays are not in conflict: the inequalities are strict. */
  lemma BackToBackNotReported(bookings: map<Id, Booking>, roomId: Id, checkIn: int, checkOut: int, id: Id)
    requires id in bookings
    requires bookings[id].checkOut == checkIn || bookings[id].checkIn == checkOut
    ensures id !in FindActiveByRoom(bookings, roomId, checkIn, checkOut)
  {
  }

  /** CANCELLED and COMPLETED bookings never block a room. */
  lemma InactiveNeverReported(bookings: map<Id, Booking>, roomId: Id, checkIn: int, checkOut: int, id: Id)
    requires id in bookings && (bookings[id].status == Cancelled || bookings[id].status == Completed)
    ensures id !in FindActiveByRoom(bookings, roomId, checkIn, checkOut)
  {
  }

  lemma OverlapsSymmetric(a: Booking, b: Booking)
    ensures Overlaps(a, b) <==> Overlaps(b, a)
  {
  }

  /** FindByID: the row stored under `id`, or the store's not-found error. */
  function FindByID(bookings: map<Id, Booking>, id: Id): (r: Result<Booking, StoreError>)
    ensures r.Ok? <==> id in bookings
    ensures r.Ok? ==> r.value == bookings[id]
  {
    if id in bookings then Ok(bookings[id]) else Err(RecordNotFound)
  }

  /** Every row is stored under its own id. */
  predicate KeyedById(bookings: map<Id, Booking>) {
    forall id | id in bookings :: bookings[id].id == id
  }

  /** Every id in the table is below `n`. */
  predicate IdsBelow(bookings: map<Id, Booking>, n: nat) {
    forall id | id in bookings :: id < n
  }

  predicate NewestFirst(s: seq<Booking>) {
    forall i, j | 0 <= i < j < |s| :: s[i].createdAt >= s[j].createdAt
  }

  predicate Distinct(s: seq<Booking>) {
    forall i, j | 0 <= i < j < |s| :: s[i] != s[j]
  }

  /** The user's rows with an id below `n`, in increasing id order. */
  function UserBookingsBelow(bookings: map<Id, Booking>, userId: Id, n: nat): (r: seq<Booking>)
    ensures forall i | 0 <= i < |r| :: r[i].userId == userId
  {
    if n == 0 then []
    else
      var k := n - 1;
      UserBookingsBelow(bookings, userId, k) +
        (if k in bookings && bookings[k].userId == userId then [bookings[k]] else [])
  }

  lemma {:induction false} UserBookingsBelowExact(bookings: map<Id, Booking>, userId: Id, n: nat)
    requires KeyedById(bookings)
    ensures var r := UserBookingsBelow(bookings, userId, n);
      && (forall b :: b in r <==> b.id < n && b.id in bookings && bookings[b.id] == b && b.userId == userId)
      && (forall i, j | 0 <= i < j < |r| :: r[i].id < r[j].id)
  {
    if n > 0 {
      UserBookingsBelowExact(bookings, userId, n - 1);
      var r' := UserBookingsBelow(bookings, userId, n - 1);
      forall i | 0 <= i < |r'| ensures r'[i].id < n - 1 {
        assert r'[i] in r';
      }
    }
  }

  /** Inserts `b` before the first row that is not newer than it. */
  function InsertNewestFirst(b: Booking, s: seq<Booking>): (r: seq<Booking>)
    ensures multiset(r) == multiset(s) + multiset{b}
    ensures forall x | x in r :: x == b || x in s
    ensures NewestFirst(s) ==> NewestFirst(r)
  {
    if s == [] || s[0].createdAt <= b.createdAt then [b] + s
    else
      var rest := InsertNewestFirst(b, s[1..]);
      assert s == [s[0]] + s[1..];
      assert forall x | x in rest :: x.createdAt <= s[0].createdAt || !NewestFirst(s) by {
        forall x | x in rest && NewestFirst(s) ensures x.createdAt <= s[0].createdAt {
          if x != b {
            var k :| 0 <= k < |s[1..]| && s[1..][k] == x;
            assert s[k + 1] == x;
          }
        }
      }
      [s[0]] + rest
  }

  /** Orders rows by creation time, newest first (insertion sort). */
  function SortNewestFirst(s: seq<Booking>): (r: seq<Booking>)
    ensures multiset(r) == multiset(s)
    ensures NewestFirst(r)
  {
    if s == [] then []
    else
      assert s == [s[0]] + s[1..];
      InsertNewestFirst(s[0], SortNewestFirst(s[1..]))
  }

  /** FindByUser: the user's bookings ordered by `created_at` descending. */
  function FindByUser(bookings: map<Id, Booking>, userId: Id, n: nat): (r: seq<Booking>)
    ensures NewestFirst(r)
  {
    SortNewestFirst(UserBookingsBelow(bookings, userId, n))
  }

  lemma {:induction false} AtMostOnceInDistinct(s: seq<Booking>, x: Booking)
    requires Distinct(s)
    ensures multiset(s)[x] <= 1
  {
    if s != [] {
      assert s == [s[0]] + s[1..];
      AtMostOnceInDistinct(s[1..], x);
      if s[0] == x {
        assert x !in s[1..] by {
          forall k | 0 <= k < |s[1..]| ensures s[1..][k] != x {
            assert s[1..][k] == s[k + 1];
          }
        }
      }
    }
  }

  lemma DistinctByPermutation(a: seq<Booking>, b: seq<Booking>)
    requires multiset(a) == multiset(b) && Distinct(b)
    ensures Distinct(a)
  {
    forall i, j | 0 <= i < j < |a| ensures a[i] != a[j] {
      if a[i] == a[j] {
        var x := a[i];
        assert a == a[..j] + a[j..];
        assert x in a[..j];
        assert x in a[j..];
        assert multiset(a)[x] == multiset(a[..j])[x] + multiset(a[j..])[x];
        AtMostOnceInDistinct(b, x);
        assert false;
      }
    }
  }

  /** FindByUser returns every booking of that user exactly once, newest first, and nothing else. */
  lemma FindByUserExact(bookings: map<Id, Booking>, userId: Id, n: nat)
    requires KeyedById(bookings) && IdsBelow(bookings, n)
    ensures var r := FindByUser(bookings, userId, n);
      && NewestFirst(r)
      && (forall b :: b in r <==> b.id in bookings && bookings[b.id] == b && b.userId == userId)
      && Distinct(r)
  {
    var asc := UserBookingsBelow(bookings, userId, n);
    var r := FindByUser(bookings, userId, n);
    UserBookingsBelowExact(bookings, userId, n);
    assert multiset(r) == multiset(asc);
    forall b ensures b in r <==> b in asc {
      assert b in r <==> b in multiset(r);
      assert b in asc <==> b in multiset(asc);
    }
    assert Distinct(asc) by {
      forall i, j | 0 <= i < j < |asc| ensures asc[i] != asc[j] {
        assert asc[i].id < asc[j].id;
      }
    }
    DistinctByPermutation(r, asc);
  }
}
