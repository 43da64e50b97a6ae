/**
 * The reservation engine as pure transitions over the database state: each
 * route that changes the `slots` or `bookings` table is a function from the
 * state before the request to its outcome (a result or an HTTP error) and the
 * state after it. The class `Routes.Ledger` implements the routes step by step
 * and is proved to follow these functions; the lemmas here state what the
 * routes guarantee: the `uq_user_slot_date` constraint is kept, a slot/date
 * never receives a booking once its count has reached the capacity, a
 * refused request leaves the ledger unchanged, a cancellation removes exactly
 * one booking.
 */
module Engine {
  import opened Wrappers
  import opened Text
  import opened Calendar
  import opened Models
  import opened Requests
  import opened Availability
  import opened Ordering

  // ---------------------------------------------------------------------------
  // Outcomes
  // ---------------------------------------------------------------------------

  /** `abort(400)`, `abort(403)`, `abort(404)`, `abort(409)`, and an uncaught exception (500). */
  datatype Failure =
    | BadRequest(msg: string)
    | Forbidden(msg: string)
    | NotFound(msg: string)
    | Conflict(msg: string)
    | ServerError

  datatype Result<T> = Ok(value: T) | Err(failure: Failure)

  /** The three tables. */
  datatype Db = Db(users: map<int, User>, slots: map<int, Slot>, bookings: seq<Booking>)

  /** What a request returns and the state it leaves behind. */
  datatype Step<T> = Step(result: Result<T>, db: Db)

  const MsgIdAndDate: string := "slot_id and date required"
  const MsgInvalidDate: string := "Invalid date (use YYYY-MM-DD)"
  const MsgSlotUnavailable: string := "Slot not found or inactive"
  const MsgWrongWeekday: string := "Slot not available on selected date"
  const MsgAlreadyBooked: string := "Already booked"
  const MsgSlotFull: string := "Slot full"
  const MsgCommitFailed: string := "Could not book (maybe already booked)"
  const MsgBookingNotFound: string := "Booking not found"
  const MsgNotAllowed: string := "Not allowed"
  const MsgAdminOnly: string := "Admin only"
  const MsgSlotNotFound: string := "Slot not found"
  const MsgBadCapacity: string := "capienza must be > 0 or null"
  const MsgDateRequired: string := "date is required"
  const MsgDateAndSlotRequired: string := "date and slot_id required"

  // ---------------------------------------------------------------------------
  // Row ids and queries over the bookings table
  // ---------------------------------------------------------------------------

  /**
   * The id SQLite gives a new row of a table whose key is an integer primary
   * key: one more than the largest id in use, 1 for an empty table.
   */
  ghost function NextRowId(ids: set<int>): (r: int)
    ensures forall x :: x in ids ==> x < r
    ensures ids == {} ==> r == 1
    ensures ids != {} ==> r - 1 in ids
    decreases ids
  {
    if ids == {} then 1
    else
      HasMember(ids);
      var k :| k in ids;
      var rest := ids - {k};
      assert ids == rest + {k};
      if rest == {} then k + 1
      else
        var m := NextRowId(rest);
        if k >= m then k + 1 else m
  }

  lemma HasMember(ids: set<int>)
    ensures ids == {} || exists x :: x in ids
  {
    if forall x :: x !in ids {
      assert ids == {};
    }
  }

  /** The three facts that determine the next row id single it out. */
  lemma NextRowIdUnique(ids: set<int>, r: int)
    requires forall x :: x in ids ==> x < r
    requires ids == {} ==> r == 1
    requires ids != {} ==> r - 1 in ids
    ensures r == NextRowId(ids)
  {
    var n := NextRowId(ids);
    if ids != {} {
      assert r - 1 < n && n - 1 < r;
    }
  }

  function BookingIds(bs: seq<Booking>): set<int>
  {
    set b | b in bs :: b.id
  }

  /** `func.count(Booking.id)` filtered by slot and date. */
  function CountFor(bs: seq<Booking>, slotId: int, date: Date): nat
  {
    if bs == [] then 0
    else CountFor(bs[..|bs| - 1], slotId, date)
         + (if bs[|bs| - 1].slotId == slotId && bs[|bs| - 1].date == date then 1 else 0)
  }

  /** `Booking.query.filter_by(user_id=..., slot_id=..., data=...).first()` finds a row. */
  predicate HasBooking(bs: seq<Booking>, userId: int, slotId: int, date: Date)
  {
    exists i :: 0 <= i < |bs| && SameKey(bs[i], userId, slotId, date)
  }

  /** `db.session.get(Booking, id)`: the position of the booking with that id. */
  function FindBooking(bs: seq<Booking>, id: int): (r: Option<nat>)
    ensures r.Some? ==> r.value < |bs| && bs[r.value].id == id
    ensures r.Some? ==> forall j :: 0 <= j < r.value ==> bs[j].id != id
    ensures r.None? ==> forall j :: 0 <= j < |bs| ==> bs[j].id != id
  {
    if bs == [] then None
    else if bs[0].id == id then Some(0)
    else
      match FindBooking(bs[1..], id)
      case None => None
      case Some(i) => Some(i + 1)
  }

  function RemoveAt(bs: seq<Booking>, i: nat): seq<Booking>
    requires i < |bs|
  {
    bs[..i] + bs[i + 1..]
  }

  /** The invariant of the database: the two key constraints and the slot reference. */
  ghost predicate Valid(db: Db)
  {
    && UniqueKeys(db.bookings)
    && UniqueIds(db.bookings)
    && forall i :: 0 <= i < |db.bookings| ==> db.bookings[i].slotId in db.slots
  }

  // ---------------------------------------------------------------------------
  // Lemmas about the queries
  // ---------------------------------------------------------------------------

  lemma {:induction false} CountForConcat(a: seq<Booking>, b: seq<Booking>, slotId: int, date: Date)
    ensures CountFor(a + b, slotId, date) == CountFor(a, slotId, date) + CountFor(b, slotId, date)
    decreases |b|
  {
    if b == [] {
      assert a + b == a;
    } else {
      var b' := b[..|b| - 1];
      assert (a + b)[..|a + b| - 1] == a + b';
      CountForConcat(a, b', slotId, date);
    }
  }

  lemma {:induction false} CountForPositive(bs: seq<Booking>, userId: int, slotId: int, date: Date)
    requires HasBooking(bs, userId, slotId, date)
    ensures CountFor(bs, slotId, date) >= 1
    decreases |bs|
  {
    var last := |bs| - 1;
    if !SameKey(bs[last], userId, slotId, date) {
      var i :| 0 <= i < |bs| && SameKey(bs[i], userId, slotId, date);
      assert bs[..last][i] == bs[i];
      CountForPositive(bs[..last], userId, slotId, date);
    }
  }

  /** Removing the booking at `i` lowers its own slot/date count by one and no other. */
  lemma CountForRemoveAt(bs: seq<Booking>, i: nat, slotId: int, date: Date)
    requires i < |bs|
    ensures CountFor(RemoveAt(bs, i), slotId, date) + (if bs[i].slotId == slotId && bs[i].date == date then 1 else 0)
            == CountFor(bs, slotId, date)
  {
    assert bs == bs[..i] + [bs[i]] + bs[i + 1..];
    CountForConcat(bs[..i] + [bs[i]], bs[i + 1..], slotId, date);
    CountForConcat(bs[..i], [bs[i]], slotId, date);
    CountForConcat(bs[..i], bs[i + 1..], slotId, date);
    assert [bs[i]][..0] == [];
  }

  // ---------------------------------------------------------------------------
  // create_booking
  // ---------------------------------------------------------------------------

  /** `parse_date` applied to a JSON value; anything but a string is refused too. */
  function DateArg(j: Json): (r: Option<Date>)
    ensures r.Some? ==> ValidDate(r.value)
    ensures r.Some? <==> j.JStr? && ParseDate(j.s).Some?
    ensures j.JStr? ==> r == ParseDate(j.s)
  {
    if j.JStr? then ParseDate(j.s) else None
  }

  /**
   * Reads `slot_id` and `date` from the body: both must be present and
   * truthy, the date must parse, and `int(slot_id)` must succeed.
   */
  function BookingRequest(slotArg: Option<Json>, dateArg: Option<Json>): (r: Result<(int, Date)>)
    ensures r.Ok? ==> ValidDate(r.value.1)
    ensures slotArg.None? || !Truthy(slotArg.value) || dateArg.None? || !Truthy(dateArg.value) ==>
              r == Err(BadRequest(MsgIdAndDate))
    ensures slotArg.Some? && Truthy(slotArg.value) && dateArg.Some? && Truthy(dateArg.value) ==>
              (DateArg(dateArg.value).None? ==> r == Err(BadRequest(MsgInvalidDate)))
              && (DateArg(dateArg.value).Some? && PyInt(slotArg.value).None? ==> r == Err(ServerError))
    ensures r.Ok? <==> slotArg.Some? && Truthy(slotArg.value) && dateArg.Some? && Truthy(dateArg.value)
                       && DateArg(dateArg.value).Some? && PyInt(slotArg.value).Some?
    ensures r.Ok? ==> r.value == (PyInt(slotArg.value).value, DateArg(dateArg.value).value)
  {
    if slotArg.None? || !Truthy(slotArg.value) || dateArg.None? || !Truthy(dateArg.value) then
      Err(BadRequest(MsgIdAndDate))
    else
      match DateArg(dateArg.value)
      case None => Err(BadRequest(MsgInvalidDate))
      case Some(d) =>
        match PyInt(slotArg.value)
        case None => Err(ServerError)
        case Some(id) => Ok((id, d))
  }

  /**
   * The checks of `create_booking` in their order: the slot exists and is
   * active, the date is on its weekday, the caller has no booking for that
   * slot and date, the slot/date count is below a finite capacity; then the
   * insert, which the commit may still refuse.
   */
  ghost function ReserveChecked(db: Db, userId: int, slotId: int, date: Date, commitOk: bool, now: int): Step<int>
    requires ValidDate(date)
  {
    if slotId !in db.slots || !db.slots[slotId].active then Step(Err(NotFound(MsgSlotUnavailable)), db)
    else
      var slot := db.slots[slotId];
      if !OccursOn(slot, date) then Step(Err(BadRequest(MsgWrongWeekday)), db)
      else if HasBooking(db.bookings, userId, slotId, date) then Step(Err(Conflict(MsgAlreadyBooked)), db)
      else if slot.capacity.Some? && CountFor(db.bookings, slotId, date) >= slot.capacity.value then
        Step(Err(Conflict(MsgSlotFull)), db)
      else if !commitOk then Step(Err(Conflict(MsgCommitFailed)), db)
      else
        var b := Booking(NextRowId(BookingIds(db.bookings)), userId, slotId, date, now);
        Step(Ok(b.id), db.(bookings := db.bookings + [b]))
  }

  /** `POST /bookings`. */
  ghost function Reserve(db: Db, caller: Principal, slotArg: Option<Json>, dateArg: Option<Json>,
                         commitOk: bool, now: int): Step<int>
  {
    match BookingRequest(slotArg, dateArg)
    case Err(f) => Step(Err(f), db)
    case Ok((slotId, date)) => ReserveChecked(db, caller.id, slotId, date, commitOk, now)
  }

  /** Every refusal of a reservation, whatever its reason, leaves the ledger as it was. */
  lemma ReserveRefusalKeepsLedger(db: Db, caller: Principal, slotArg: Option<Json>, dateArg: Option<Json>,
                                  commitOk: bool, now: int)
    ensures Reserve(db, caller, slotArg, dateArg, commitOk, now).result.Err? ==>
              Reserve(db, caller, slotArg, dateArg, commitOk, now).db == db
  {
  }

  /** A missing or falsy `slot_id` or `date` is a bad request. */
  lemma ReserveNeedsBothArgs(db: Db, caller: Principal, slotArg: Option<Json>, dateArg: Option<Json>,
                             commitOk: bool, now: int)
    requires slotArg.None? || dateArg.None? || !Truthy(slotArg.value) || !Truthy(dateArg.value)
    ensures Reserve(db, caller, slotArg, dateArg, commitOk, now) == Step(Err(BadRequest(MsgIdAndDate)), db)
  {
  }

  /**
   * A reservation succeeds exactly when the slot is active, the date is on
   * its weekday, the caller holds no booking for it, a finite capacity is not
   * reached and the commit goes through.
   */
  lemma ReserveSucceedsIff(db: Db, userId: int, slotId: int, date: Date, commitOk: bool, now: int)
    requires ValidDate(date)
    ensures ReserveChecked(db, userId, slotId, date, commitOk, now).result.Ok? <==>
              && slotId in db.slots && db.slots[slotId].active
              && OccursOn(db.slots[slotId], date)
              && !HasBooking(db.bookings, userId, slotId, date)
              && (db.slots[slotId].capacity.None? || CountFor(db.bookings, slotId, date) < db.slots[slotId].capacity.value)
              && commitOk
  {
  }

  /**
   * A successful reservation appends one booking for the caller, slot and
   * date with a fresh id: the count of that slot/date rises by one, no other
   * count moves, and every earlier booking is kept.
   */
  lemma ReserveAddsOneBooking(db: Db, userId: int, slotId: int, date: Date, commitOk: bool, now: int,
                              otherSlot: int, otherDate: Date)
    requires ValidDate(date)
    requires ReserveChecked(db, userId, slotId, date, commitOk, now).result.Ok?
    ensures var st := ReserveChecked(db, userId, slotId, date, commitOk, now);
            && |st.db.bookings| == |db.bookings| + 1
            && st.db.bookings[..|db.bookings|] == db.bookings
            && SameKey(st.db.bookings[|db.bookings|], userId, slotId, date)
            && st.db.bookings[|db.bookings|].id == st.result.value
            && st.result.value !in BookingIds(db.bookings)
            && st.db.slots == db.slots && st.db.users == db.users
            && CountFor(st.db.bookings, slotId, date) == CountFor(db.bookings, slotId, date) + 1
            && ((otherSlot, otherDate) != (slotId, date) ==>
                  CountFor(st.db.bookings, otherSlot, otherDate) == CountFor(db.bookings, otherSlot, otherDate))
  {
    var st := ReserveChecked(db, userId, slotId, date, commitOk, now);
    assert st.db.bookings[..|db.bookings|] == db.bookings;
  }

  /** A successful reservation never takes a slot/date above its capacity. */
  lemma ReserveWithinCapacity(db: Db, userId: int, slotId: int, date: Date, commitOk: bool, now: int)
    requires ValidDate(date)
    requires ReserveChecked(db, userId, slotId, date, commitOk, now).result.Ok?
    requires db.slots[slotId].capacity.Some?
    ensures CountFor(ReserveChecked(db, userId, slotId, date, commitOk, now).db.bookings, slotId, date)
            <= db.slots[slotId].capacity.value
  {
    ReserveAddsOneBooking(db, userId, slotId, date, commitOk, now, slotId, date);
  }

  /** Once the count has reached a finite capacity, every further reservation is refused. */
  lemma ReserveRefusedWhenFull(db: Db, userId: int, slotId: int, date: Date, commitOk: bool, now: int)
    requires ValidDate(date)
    requires slotId in db.slots && db.slots[slotId].capacity.Some?
    requires CountFor(db.bookings, slotId, date) >= db.slots[slotId].capacity.value
    ensures ReserveChecked(db, userId, slotId, date, commitOk, now).result.Err?
    ensures ReserveChecked(db, userId, slotId, date, commitOk, now).db == db
  {
  }

  /** An unlimited slot is never refused as full. */
  lemma UnlimitedNeverFull(db: Db, userId: int, slotId: int, date: Date, commitOk: bool, now: int)
    requires ValidDate(date)
    requires slotId in db.slots && db.slots[slotId].capacity.None?
    ensures ReserveChecked(db, userId, slotId, date, commitOk, now).result != Err(Conflict(MsgSlotFull))
  {
  }

  /** Once a reservation succeeded, the same request is refused as already booked. */
  lemma SecondReserveRefused(db: Db, userId: int, slotId: int, date: Date, commitOk: bool, now: int,
                             commitOk': bool, now': int)
    requires ValidDate(date)
    requires ReserveChecked(db, userId, slotId, date, commitOk, now).result.Ok?
    ensures var after := ReserveChecked(db, userId, slotId, date, commitOk, now).db;
            ReserveChecked(after, userId, slotId, date, commitOk', now') == Step(Err(Conflict(MsgAlreadyBooked)), after)
  {
    var after := ReserveChecked(db, userId, slotId, date, commitOk, now).db;
    assert SameKey(after.bookings[|db.bookings|], userId, slotId, date);
  }

  lemma NextRowIdFresh(bs: seq<Booking>)
    ensures forall i :: 0 <= i < |bs| ==> bs[i].id < NextRowId(BookingIds(bs))
  {
    forall i | 0 <= i < |bs| ensures bs[i].id < NextRowId(BookingIds(bs)) {
      assert bs[i].id in BookingIds(bs);
    }
  }

  /** A reservation keeps the database invariant, whatever its outcome. */
  lemma ReservePreservesValid(db: Db, userId: int, slotId: int, date: Date, commitOk: bool, now: int)
    requires ValidDate(date) && Valid(db)
    ensures Valid(ReserveChecked(db, userId, slotId, date, commitOk, now).db)
  {
    var st := ReserveChecked(db, userId, slotId, date, commitOk, now);
    if st.result.Ok? {
      var bs := st.db.bookings;
      var n := |db.bookings|;
      NextRowIdFresh(db.bookings);
      forall i, j | 0 <= i < j < |bs| ensures !SameKey(bs[j], bs[i].userId, bs[i].slotId, bs[i].date) && bs[i].id != bs[j].id {
        if j == n {
          assert bs[i] == db.bookings[i];
        }
      }
    }
  }

  /**
   * A Wednesday slot of capacity 2 on 2024-06-05: two users get a seat, a
   * third is refused as full, the first user asking again is refused as
   * already booked, and a request for Thursday 2024-06-06 is refused because
   * the slot does not occur that day.
   */
  lemma CapacityTwoScenario(userA: int, userB: int, userC: int, userD: int, now: int)
    requires userA != userB && userC != userA && userC != userB
    ensures var slot := Slot(Gym, "Sala pesi", 3, "18:00", "19:00", Some(2), true);
            var wed := Date(2024, 6, 5);
            var db0 := Db(map[], map[1 := slot], []);
            var s1 := ReserveChecked(db0, userA, 1, wed, true, now);
            var s2 := ReserveChecked(s1.db, userB, 1, wed, true, now);
            var s3 := ReserveChecked(s2.db, userC, 1, wed, true, now);
            var s4 := ReserveChecked(s3.db, userA, 1, wed, true, now);
            var s5 := ReserveChecked(s4.db, userD, 1, Date(2024, 6, 6), true, now);
            && s1.result == Ok(1) && s2.result == Ok(2)
            && s3.result == Err(Conflict(MsgSlotFull))
            && s4.result == Err(Conflict(MsgAlreadyBooked))
            && s5.result == Err(BadRequest(MsgWrongWeekday))
            && s5.db == s2.db && CountFor(s5.db.bookings, 1, wed) == 2
  {
    June2024Weekdays();
    var slot := Slot(Gym, "Sala pesi", 3, "18:00", "19:00", Some(2), true);
    var wed := Date(2024, 6, 5);
    var db0 := Db(map[], map[1 := slot], []);
    var s1 := ReserveChecked(db0, userA, 1, wed, true, now);
    assert BookingIds([]) == {};
    assert s1.db.bookings == [Booking(1, userA, 1, wed, now)];
    assert BookingIds(s1.db.bookings) == {1};
    var s2 := ReserveChecked(s1.db, userB, 1, wed, true, now);
    assert !HasBooking(s1.db.bookings, userB, 1, wed);
    assert s2.db.bookings == [Booking(1, userA, 1, wed, now), Booking(2, userB, 1, wed, now)];
    assert CountFor(s2.db.bookings, 1, wed) == 2 by {
      assert s2.db.bookings[..1] == s1.db.bookings;
      assert s1.db.bookings[..0] == [];
    }
    assert !HasBooking(s2.db.bookings, userC, 1, wed);
    assert HasBooking(s2.db.bookings, userA, 1, wed) by {
      assert SameKey(s2.db.bookings[0], userA, 1, wed);
    }
  }

  // ---------------------------------------------------------------------------
  // Reservations in sequence
  // ---------------------------------------------------------------------------

  /** The requests of `users`, one after the other, for one slot and date, all commits succeeding. */
  ghost function ReserveAll(db: Db, users: seq<int>, slotId: int, date: Date, now: int): (seq<Result<int>>, Db)
    requires ValidDate(date)
  {
    if users == [] then ([], db)
    else
      var (results, mid) := ReserveAll(db, users[..|users| - 1], slotId, date, now);
      var st := ReserveChecked(mid, users[|users| - 1], slotId, date, true, now);
      (results + [st.result], st.db)
  }

  function Successes<T>(rs: seq<Result<T>>): nat
  {
    if rs == [] then 0 else Successes(rs[..|rs| - 1]) + (if rs[|rs| - 1].Ok? then 1 else 0)
  }

  function Min(a: int, b: int): int { if a <= b then a else b }

  /** Every booking of the slot and date belongs to one of `users`. */
  ghost predicate BookedOnlyBy(bs: seq<Booking>, slotId: int, date: Date, users: seq<int>)
  {
    forall i :: 0 <= i < |bs| && bs[i].slotId == slotId && bs[i].date == date ==> bs[i].userId in users
  }

  lemma NotBookedYet(bs: seq<Booking>, slotId: int, date: Date, users: seq<int>, u: int)
    requires BookedOnlyBy(bs, slotId, date, users) && u !in users
    ensures !HasBooking(bs, u, slotId, date)
  {
  }

  /** A reservation by one more user keeps the slot/date booked only by the users seen so far. */
  lemma BookedOnlyByStep(db: Db, u: int, slotId: int, date: Date, now: int, prefix: seq<int>, users: seq<int>)
    requires ValidDate(date)
    requires BookedOnlyBy(db.bookings, slotId, date, prefix)
    requires (forall x :: x in prefix ==> x in users) && u in users
    ensures BookedOnlyBy(ReserveChecked(db, u, slotId, date, true, now).db.bookings, slotId, date, users)
  {
    var bs := ReserveChecked(db, u, slotId, date, true, now).db.bookings;
    forall i | 0 <= i < |bs| && bs[i].slotId == slotId && bs[i].date == date ensures bs[i].userId in users {
      if i < |db.bookings| {
        assert bs[i] == db.bookings[i];
      }
    }
  }

  /**
   * N distinct users reserving an active slot of capacity C on one of its
   * dates, with no booking yet: exactly min(N, C) succeed, every other
   * request is refused as full, and the count ends at min(N, C).
   */
  lemma {:induction false} ReserveAllFillsToCapacity(db: Db, users: seq<int>, slotId: int, date: Date, now: int)
    requires ValidDate(date)
    requires slotId in db.slots && db.slots[slotId].active && OccursOn(db.slots[slotId], date)
    requires db.slots[slotId].capacity.Some? && db.slots[slotId].capacity.value >= 0
    requires CountFor(db.bookings, slotId, date) == 0
    requires forall i, j :: 0 <= i < j < |users| ==> users[i] != users[j]
    ensures var (results, final) := ReserveAll(db, users, slotId, date, now);
            && |results| == |users|
            && Successes(results) == Min(|users|, db.slots[slotId].capacity.value)
            && CountFor(final.bookings, slotId, date) == Min(|users|, db.slots[slotId].capacity.value)
            && (forall k :: 0 <= k < |results| && results[k].Err? ==> results[k] == Err(Conflict(MsgSlotFull)))
            && final.slots == db.slots
            && BookedOnlyBy(final.bookings, slotId, date, users)
    decreases |users|
  {
    if users == [] {
      forall i | 0 <= i < |db.bookings| && db.bookings[i].slotId == slotId && db.bookings[i].date == date
        ensures false
      {
        CountForPositive(db.bookings, db.bookings[i].userId, slotId, date);
      }
    } else {
      var prefix := users[..|users| - 1];
      var u := users[|users| - 1];
      ReserveAllFillsToCapacity(db, prefix, slotId, date, now);
      var (results, mid) := ReserveAll(db, prefix, slotId, date, now);
      var st := ReserveChecked(mid, u, slotId, date, true, now);
      assert u !in prefix by {
        forall k | 0 <= k < |prefix| ensures prefix[k] != u {
          assert prefix[k] == users[k];
        }
      }
      NotBookedYet(mid.bookings, slotId, date, prefix, u);
      assert forall x :: x in prefix ==> x in users;
      BookedOnlyByStep(mid, u, slotId, date, now, prefix, users);
      var rs := results + [st.result];
      assert rs[..|rs| - 1] == results;
      if st.result.Ok? {
        ReserveAddsOneBooking(mid, u, slotId, date, true, now, slotId, date);
      }
      forall k | 0 <= k < |rs| && rs[k].Err? ensures rs[k] == Err(Conflict(MsgSlotFull)) {
        if k < |results| { assert rs[k] == results[k]; }
      }
    }
  }

  // ---------------------------------------------------------------------------
  // delete_booking
  // ---------------------------------------------------------------------------

  /** `DELETE /bookings/<id>`: the owner or an admin may delete an existing booking. */
  ghost function Cancel(db: Db, caller: Principal, bookingId: int): Step<()>
  {
    match FindBooking(db.bookings, bookingId)
    case None => Step(Err(NotFound(MsgBookingNotFound)), db)
    case Some(i) =>
      if db.bookings[i].userId != caller.id && !caller.admin then Step(Err(Forbidden(MsgNotAllowed)), db)
      else Step(Ok(()), db.(bookings := RemoveAt(db.bookings, i)))
  }

  /**
   * Cancelling an unknown id is not found; a caller who neither owns the
   * booking nor is an admin is forbidden; otherwise exactly that booking is
   * removed and everything else stays.
   */
  lemma CancelOutcomes(db: Db, caller: Principal, bookingId: int)
    ensures var st := Cancel(db, caller, bookingId);
            && (bookingId !in BookingIds(db.bookings) ==> st == Step(Err(NotFound(MsgBookingNotFound)), db))
            && (bookingId in BookingIds(db.bookings) ==>
                  var i := FindBooking(db.bookings, bookingId).value;
                  && (db.bookings[i].userId != caller.id && !caller.admin ==> st == Step(Err(Forbidden(MsgNotAllowed)), db))
                  && (db.bookings[i].userId == caller.id || caller.admin ==>
                        && st.result.Ok?
                        && st.db.slots == db.slots && st.db.users == db.users
                        && st.db.bookings == db.bookings[..i] + db.bookings[i + 1..]))
  {
    if bookingId in BookingIds(db.bookings) {
      var b :| b in db.bookings && b.id == bookingId;
      var k :| 0 <= k < |db.bookings| && db.bookings[k] == b;
      assert FindBooking(db.bookings, bookingId).Some?;
    }
  }

  /** A successful cancellation frees one seat of the booking's slot/date and no other. */
  lemma CancelReleasesOneSeat(db: Db, caller: Principal, bookingId: int, slotId: int, date: Date)
    requires Cancel(db, caller, bookingId).result.Ok?
    ensures var b := db.bookings[FindBooking(db.bookings, bookingId).value];
            CountFor(Cancel(db, caller, bookingId).db.bookings, slotId, date)
            == CountFor(db.bookings, slotId, date) - (if b.slotId == slotId && b.date == date then 1 else 0)
  {
    CountForRemoveAt(db.bookings, FindBooking(db.bookings, bookingId).value, slotId, date);
  }

  /** A cancellation keeps the database invariant. */
  lemma CancelPreservesValid(db: Db, caller: Principal, bookingId: int)
    requires Valid(db)
    ensures Valid(Cancel(db, caller, bookingId).db)
  {
    var st := Cancel(db, caller, bookingId);
    if st.result.Ok? {
      var i := FindBooking(db.bookings, bookingId).value;
      var bs := db.bookings;
      var r := st.db.bookings;
      assert forall k :: 0 <= k < |r| ==> r[k] == (if k < i then bs[k] else bs[k + 1]);
    }
  }

  /** Cancelling the booking a reservation just made restores the ledger exactly. */
  lemma CancelUndoesReserve(db: Db, userId: int, slotId: int, date: Date, now: int, admin: bool)
    requires ValidDate(date)
    requires ReserveChecked(db, userId, slotId, date, true, now).result.Ok?
    ensures var st := ReserveChecked(db, userId, slotId, date, true, now);
            Cancel(st.db, Principal(userId, admin), st.result.value) == Step(Ok(()), db)
  {
    var st := ReserveChecked(db, userId, slotId, date, true, now);
    var bs := st.db.bookings;
    NextRowIdFresh(db.bookings);
    var n := |db.bookings|;
    assert bs[n].id == st.result.value;
    assert forall j :: 0 <= j < n ==> bs[j].id != st.result.value by {
      forall j | 0 <= j < n ensures bs[j].id != st.result.value { assert bs[j] == db.bookings[j]; }
    }
    assert FindBooking(bs, st.result.value) == Some(n);
    assert RemoveAt(bs, n) == db.bookings;
  }

  // ---------------------------------------------------------------------------
  // Slot administration
  // ---------------------------------------------------------------------------

  /** The fields `admin_create_slot` requires, in the order it checks them. */
  const RequiredSlotFields: seq<string> := ["impianto", "titolo", "giorno_settimana", "ora_inizio", "ora_fine"]

  /** Every required field is a key of the body. */
  predicate HasSlotFields(data: Body)
  {
    "impianto" in data && "titolo" in data && "giorno_settimana" in data && "ora_inizio" in data && "ora_fine" in data
  }

  /** The first required field that is absent or falsy. */
  function FirstMissing(data: Body, keys: seq<string>): (r: Option<string>)
    ensures r.None? <==> forall i :: 0 <= i < |keys| ==> !Missing(data, keys[i])
    ensures r.None? ==> forall k :: k in keys ==> k in data && Truthy(data[k])
    ensures r.Some? ==> r.value in keys && Missing(data, r.value)
  {
    if keys == [] then None
    else if Missing(data, keys[0]) then Some(keys[0])
    else FirstMissing(data, keys[1..])
  }

  /** The loop over the required fields stops at the first one missing. */
  lemma {:induction false} FirstMissingAt(data: Body, keys: seq<string>, i: nat)
    requires i < |keys| && Missing(data, keys[i])
    requires forall j :: 0 <= j < i ==> !Missing(data, keys[j])
    ensures FirstMissing(data, keys) == Some(keys[i])
    decreases i
  {
    if i > 0 {
      assert !Missing(data, keys[0]);
      FirstMissingAt(data, keys[1..], i - 1);
    }
  }

  /**
   * The `capienza` rule: `""` and `null` (or no value) mean unlimited; any
   * other value goes through `int()` and must then be positive.
   */
  function CapacityArg(v: Option<Json>): (r: Result<Option<int>>)
    ensures v.None? || v == Some(JNull) || v == Some(JStr("")) ==> r == Ok(None)
    ensures r.Ok? && r.value.Some? ==> r.value.value > 0 && PyInt(v.value) == Some(r.value.value)
    ensures r == Err(BadRequest(MsgBadCapacity)) <==>
              v.Some? && v != Some(JNull) && v != Some(JStr("")) && PyInt(v.value).Some? && PyInt(v.value).value <= 0
    ensures v.Some? && v != Some(JNull) && v != Some(JStr("")) ==>
              (r == Err(ServerError) <==> PyInt(v.value).None?)
              && (PyInt(v.value).Some? && PyInt(v.value).value > 0 ==> r == Ok(Some(PyInt(v.value).value)))
  {
    match v
    case None => Ok(None)
    case Some(j) =>
      if j == JNull || j == JStr("") then Ok(None)
      else
        match PyInt(j)
        case None => Err(ServerError)
        case Some(c) => if c <= 0 then Err(BadRequest(MsgBadCapacity)) else Ok(Some(c))
  }

  /**
   * The slot `admin_create_slot` builds from the body: every required field
   * present and truthy (the first one that is not is reported), the
   * `capienza` rule, then the conversions `upper`, `strip` and `int`;
   * `attivo` defaults to true.
   */
  function SlotFromBody(data: Body): (r: Result<Slot>)
    ensures FirstMissing(data, RequiredSlotFields).Some? ==>
              r == Err(BadRequest("Missing " + FirstMissing(data, RequiredSlotFields).value))
    ensures r.Ok? ==> forall k :: k in RequiredSlotFields ==> k in data && Truthy(data[k])
    ensures r.Ok? ==> HasSlotFields(data)
    ensures r.Ok? ==> r.value.capacity.None? || r.value.capacity.value > 0
    ensures r.Ok? ==> Some(r.value.weekday) == PyInt(data["giorno_settimana"])
    ensures r.Ok? ==> (r.value.active <==> "attivo" !in data || Truthy(data["attivo"]))
    ensures r == Err(BadRequest(MsgBadCapacity)) ==> FirstMissing(data, RequiredSlotFields).None?
  {
    match FirstMissing(data, RequiredSlotFields)
    case Some(k) => Err(BadRequest("Missing " + k))
    case None =>
      assert RequiredSlotFields[0] in RequiredSlotFields && RequiredSlotFields[1] in RequiredSlotFields;
      assert RequiredSlotFields[2] in RequiredSlotFields && RequiredSlotFields[3] in RequiredSlotFields;
      assert RequiredSlotFields[4] in RequiredSlotFields;
      match CapacityArg(Get(data, "capienza"))
      case Err(f) => Err(f)
      case Ok(capacity) =>
        match PyInt(data["giorno_settimana"])
        case None => Err(ServerError)
        case Some(weekday) =>
          Ok(Slot(Upper(PyStr(data["impianto"])), Strip(PyStr(data["titolo"])), weekday,
                  Strip(PyStr(data["ora_inizio"])), Strip(PyStr(data["ora_fine"])), capacity,
                  if "attivo" in data then Truthy(data["attivo"]) else true))
  }

  /**
   * The slot built from a body holds the body's own values, cleaned as the
   * handler cleans them, and a body with every required field, an
   * acceptable `capienza` and a numeric `giorno_settimana` always builds one.
   */
  lemma SlotFromBodyFields(data: Body)
    ensures SlotFromBody(data).Ok? <==>
              FirstMissing(data, RequiredSlotFields).None? && CapacityArg(Get(data, "capienza")).Ok?
              && "giorno_settimana" in data && PyInt(data["giorno_settimana"]).Some?
    ensures SlotFromBody(data).Ok? ==>
              var slot := SlotFromBody(data).value;
              && HasSlotFields(data)
              && CapacityArg(Get(data, "capienza")) == Ok(slot.capacity)
              && slot.facility == Upper(PyStr(data["impianto"]))
              && slot.title == Strip(PyStr(data["titolo"]))
              && slot.start == Strip(PyStr(data["ora_inizio"]))
              && slot.end == Strip(PyStr(data["ora_fine"]))
  {
    if FirstMissing(data, RequiredSlotFields).None? {
      assert RequiredSlotFields[2] in RequiredSlotFields;
    }
  }

  /** `POST /admin/slots`: the new slot takes the next row id. */
  ghost function CreateSlot(db: Db, caller: Principal, data: Body): Step<int>
  {
    if !caller.admin then Step(Err(Forbidden(MsgAdminOnly)), db)
    else
      match SlotFromBody(data)
      case Err(f) => Step(Err(f), db)
      case Ok(s) =>
        var id := NextRowId(db.slots.Keys);
        Step(Ok(id), db.(slots := db.slots[id := s]))
  }

  /**
   * Only an admin creates slots; a refused request changes nothing; a
   * created slot gets an id not in use, every other slot and every booking
   * stays as it was.
   */
  lemma CreateSlotOutcome(db: Db, caller: Principal, data: Body)
    ensures var st := CreateSlot(db, caller, data);
            && (!caller.admin ==> st == Step(Err(Forbidden(MsgAdminOnly)), db))
            && (st.result.Err? ==> st.db == db)
            && (st.result.Ok? <==> caller.admin && SlotFromBody(data).Ok?)
            && (st.result.Ok? ==>
                  && st.result.value !in db.slots
                  && st.db.slots.Keys == db.slots.Keys + {st.result.value}
                  && st.db.slots[st.result.value] == SlotFromBody(data).value
                  && (forall id :: id in db.slots ==> st.db.slots[id] == db.slots[id])
                  && st.db.bookings == db.bookings)
  {
  }

  lemma CreateSlotPreservesValid(db: Db, caller: Principal, data: Body)
    requires Valid(db)
    ensures Valid(CreateSlot(db, caller, data).db)
  {
  }

  /** The columns `admin_update_slot` may set from the body, apart from `capienza`. */
  datatype Field = Facility | Title | Weekday | Start | End | Active

  function FieldName(f: Field): string
  {
    match f
    case Facility => "impianto"
    case Title => "titolo"
    case Weekday => "giorno_settimana"
    case Start => "ora_inizio"
    case End => "ora_fine"
    case Active => "attivo"
  }

  /** The fields of the update loop, in its order. */
  const UpdatableFields: seq<Field> := [Facility, Title, Weekday, Start, End, Active]

  /**
   * One iteration of the update loop: the field's conversion (`upper`,
   * `strip`, `int`, `bool`). A failing `int()` leaves the slot as it is here;
   * `UpdatedSlot` turns it into a server error.
   */
  function SetField(s: Slot, f: Field, v: Json): Slot
  {
    match f
    case Facility => s.(facility := Upper(PyStr(v)))
    case Title => s.(title := Strip(PyStr(v)))
    case Weekday => if PyInt(v).Some? then s.(weekday := PyInt(v).value) else s
    case Start => s.(start := Strip(PyStr(v)))
    case End => s.(end := Strip(PyStr(v)))
    case Active => s.(active := Truthy(v))
  }

  /** The slot after the first `k` iterations of the loop over the updatable fields. */
  function Patch(s: Slot, data: Body, k: nat): Slot
    requires k <= |UpdatableFields|
  {
    if k == 0 then s
    else
      var p := Patch(s, data, k - 1);
      var f := UpdatableFields[k - 1];
      if FieldName(f) in data then SetField(p, f, data[FieldName(f)]) else p
  }

  /**
   * The slot `admin_update_slot` commits: the loop over the updatable fields,
   * then the `capienza` rule. A failing conversion aborts before the commit.
   */
  function UpdatedSlot(s: Slot, data: Body): Result<Slot>
  {
    if "giorno_settimana" in data && PyInt(data["giorno_settimana"]).None? then Err(ServerError)
    else
      var p := Patch(s, data, |UpdatableFields|);
      if "capienza" !in data then Ok(p)
      else
        match CapacityArg(Some(data["capienza"]))
        case Err(f) => Err(f)
        case Ok(c) => Ok(p.(capacity := c))
  }

  /** `u` is `s` after the first `k` iterations of the update loop. */
  ghost predicate PatchedUpTo(s: Slot, data: Body, u: Slot, k: nat)
  {
    && u.facility == (if k >= 1 && "impianto" in data then Upper(PyStr(data["impianto"])) else s.facility)
    && u.title == (if k >= 2 && "titolo" in data then Strip(PyStr(data["titolo"])) else s.title)
    && u.weekday == (if k >= 3 && "giorno_settimana" in data && PyInt(data["giorno_settimana"]).Some?
                     then PyInt(data["giorno_settimana"]).value else s.weekday)
    && u.start == (if k >= 4 && "ora_inizio" in data then Strip(PyStr(data["ora_inizio"])) else s.start)
    && u.end == (if k >= 5 && "ora_fine" in data then Strip(PyStr(data["ora_fine"])) else s.end)
    && u.active == (if k >= 6 && "attivo" in data then Truthy(data["attivo"]) else s.active)
    && u.capacity == s.capacity
  }

  /** `SetField` changes the one column it names. */
  lemma SetFieldOnly(p: Slot, f: Field, v: Json)
    ensures var u := SetField(p, f, v);
            && u.facility == (if f == Facility then Upper(PyStr(v)) else p.facility)
            && u.title == (if f == Title then Strip(PyStr(v)) else p.title)
            && u.weekday == (if f == Weekday && PyInt(v).Some? then PyInt(v).value else p.weekday)
            && u.start == (if f == Start then Strip(PyStr(v)) else p.start)
            && u.end == (if f == End then Strip(PyStr(v)) else p.end)
            && u.active == (if f == Active then Truthy(v) else p.active)
            && u.capacity == p.capacity
  {
  }

  lemma {:induction false} PatchPrefix(s: Slot, data: Body, k: nat)
    requires k <= |UpdatableFields|
    ensures PatchedUpTo(s, data, Patch(s, data, k), k)
    decreases k
  {
    if k > 0 {
      PatchPrefix(s, data, k - 1);
      var p := Patch(s, data, k - 1);
      var field := UpdatableFields[k - 1];
      if FieldName(field) in data {
        SetFieldOnly(p, field, data[FieldName(field)]);
      }
      if k == 1 {
        assert field == Facility;
      } else if k == 2 {
        assert field == Title;
      } else if k == 3 {
        assert field == Weekday;
      } else if k == 4 {
        assert field == Start;
      } else if k == 5 {
        assert field == End;
      } else {
        assert field == Active;
      }
    }
  }

  /** The loop over all updatable fields sets each field present in the body and only those. */
  lemma PatchAll(s: Slot, data: Body)
    ensures var u := Patch(s, data, |UpdatableFields|);
            && u.facility == (if "impianto" in data then Upper(PyStr(data["impianto"])) else s.facility)
            && u.title == (if "titolo" in data then Strip(PyStr(data["titolo"])) else s.title)
            && u.weekday == (if "giorno_settimana" in data && PyInt(data["giorno_settimana"]).Some?
                             then PyInt(data["giorno_settimana"]).value else s.weekday)
            && u.start == (if "ora_inizio" in data then Strip(PyStr(data["ora_inizio"])) else s.start)
            && u.end == (if "ora_fine" in data then Strip(PyStr(data["ora_fine"])) else s.end)
            && u.active == (if "attivo" in data then Truthy(data["attivo"]) else s.active)
            && u.capacity == s.capacity
  {
    PatchPrefix(s, data, |UpdatableFields|);
  }

  /** An update changes exactly the fields sent in the body, each by its conversion. */
  lemma UpdateTouchesOnlySentFields(s: Slot, data: Body)
    requires UpdatedSlot(s, data).Ok?
    ensures var u := UpdatedSlot(s, data).value;
            && u.facility == (if "impianto" in data then Upper(PyStr(data["impianto"])) else s.facility)
            && u.title == (if "titolo" in data then Strip(PyStr(data["titolo"])) else s.title)
            && u.weekday == (if "giorno_settimana" in data then PyInt(data["giorno_settimana"]).value else s.weekday)
            && u.start == (if "ora_inizio" in data then Strip(PyStr(data["ora_inizio"])) else s.start)
            && u.end == (if "ora_fine" in data then Strip(PyStr(data["ora_fine"])) else s.end)
            && u.active == (if "attivo" in data then Truthy(data["attivo"]) else s.active)
            && u.capacity == (if "capienza" in data then CapacityArg(Some(data["capienza"])).value else s.capacity)
            && (u.capacity.None? || u.capacity == s.capacity || u.capacity.value > 0)
  {
    PatchAll(s, data);
  }

  /** A body whose `int()` conversion fails, or whose `capienza` is not positive, changes nothing. */
  lemma UpdateRefusals(s: Slot, data: Body)
    ensures "giorno_settimana" in data && PyInt(data["giorno_settimana"]).None? ==> UpdatedSlot(s, data) == Err(ServerError)
    ensures "capienza" in data && CapacityArg(Some(data["capienza"])).Err? ==> UpdatedSlot(s, data).Err?
  {
  }

  /** `PUT /admin/slots/<id>`. */
  ghost function UpdateSlot(db: Db, caller: Principal, slotId: int, data: Body): Step<()>
  {
    if !caller.admin then Step(Err(Forbidden(MsgAdminOnly)), db)
    else if slotId !in db.slots then Step(Err(NotFound(MsgSlotNotFound)), db)
    else
      match UpdatedSlot(db.slots[slotId], data)
      case Err(f) => Step(Err(f), db)
      case Ok(s) => Step(Ok(()), db.(slots := db.slots[slotId := s]))
  }

  /**
   * An update rewrites one existing slot and nothing else: bookings already
   * made stay, even when the new capacity is below their count.
   */
  lemma UpdateKeepsBookings(db: Db, caller: Principal, slotId: int, data: Body)
    ensures var st := UpdateSlot(db, caller, slotId, data);
            && st.db.bookings == db.bookings
            && st.db.slots.Keys == db.slots.Keys
            && (forall id :: id in db.slots && id != slotId ==> st.db.slots[id] == db.slots[id])
            && (st.result.Err? ==> st.db == db)
            && (st.result.Ok? <==> caller.admin && slotId in db.slots && UpdatedSlot(db.slots[slotId], data).Ok?)
  {
  }

  lemma UpdatePreservesValid(db: Db, caller: Principal, slotId: int, data: Body)
    requires Valid(db)
    ensures Valid(UpdateSlot(db, caller, slotId, data).db)
  {
  }

  /** `POST /admin/slots/<id>/deactivate`. */
  ghost function DeactivateSlot(db: Db, caller: Principal, slotId: int): Step<()>
  {
    if !caller.admin then Step(Err(Forbidden(MsgAdminOnly)), db)
    else if slotId !in db.slots then Step(Err(NotFound(MsgSlotNotFound)), db)
    else Step(Ok(()), db.(slots := db.slots[slotId := db.slots[slotId].(active := false)]))
  }

  /**
   * Deactivation clears `attivo` of one slot and nothing else, leaves every
   * booking in place, and doing it twice is the same as doing it once.
   */
  lemma DeactivateOnlyClearsActive(db: Db, caller: Principal, slotId: int)
    requires DeactivateSlot(db, caller, slotId).result.Ok?
    ensures var after := DeactivateSlot(db, caller, slotId).db;
            && after.bookings == db.bookings
            && after.slots.Keys == db.slots.Keys
            && after.slots[slotId] == db.slots[slotId].(active := false)
            && (forall id :: id in db.slots && id != slotId ==> after.slots[id] == db.slots[id])
            && DeactivateSlot(after, caller, slotId) == Step(Ok(()), after)
  {
    var after := DeactivateSlot(db, caller, slotId).db;
    assert after.slots[slotId := after.slots[slotId].(active := false)] == after.slots;
  }

  /** After deactivation, every reservation of that slot is refused, for any user and date. */
  lemma DeactivatedSlotRefusesReservations(db: Db, caller: Principal, slotId: int,
                                           userId: int, date: Date, commitOk: bool, now: int)
    requires ValidDate(date)
    requires DeactivateSlot(db, caller, slotId).result.Ok?
    ensures var after := DeactivateSlot(db, caller, slotId).db;
            ReserveChecked(after, userId, slotId, date, commitOk, now) == Step(Err(NotFound(MsgSlotUnavailable)), after)
  {
  }

  lemma DeactivatePreservesValid(db: Db, caller: Principal, slotId: int)
    requires Valid(db)
    ensures Valid(DeactivateSlot(db, caller, slotId).db)
  {
  }

  // ---------------------------------------------------------------------------
  // Read-only views
  // ---------------------------------------------------------------------------

  /** The `date` query argument of `list_slots` and `my_bookings`: required, then `parse_date`. */
  function DateQuery(arg: string): (r: Result<Date>)
    ensures arg == "" ==> r == Err(BadRequest(MsgDateRequired))
    ensures arg != "" && ParseDate(arg).None? ==> r == Err(BadRequest(MsgInvalidDate))
    ensures r.Ok? ==> ValidDate(r.value) && Some(r.value) == ParseDate(arg)
    ensures arg != "" && ParseDate(arg).Some? ==> r == Ok(ParseDate(arg).value)
  {
    if arg == "" then Err(BadRequest(MsgDateRequired))
    else
      match ParseDate(arg)
      case None => Err(BadRequest(MsgInvalidDate))
      case Some(d) => Ok(d)
  }

  /** The `facility` query argument: stripped and upper-cased, `""` meaning every facility. */
  function FacilityQuery(arg: string): string
  {
    Upper(Strip(arg))
  }

  /** One entry of the `GET /slots` answer. */
  datatype SlotView = SlotView(
    id: int, facility: string, title: string, weekday: int, start: string, end: string,
    capacity: Option<int>, active: bool,
    booked: nat,               // prenotati
    remaining: Option<int>,    // rimasti
    mine: bool,                // prenotato_da_me
    full: bool)                // pieno

  /** The ids the availability query selects: active slots on the date's weekday, of the facility if one is given. */
  function Listed(db: Db, date: Date, facility: string): set<int>
    requires ValidDate(date)
  {
    set id | id in db.slots && db.slots[id].active && db.slots[id].weekday == IsoWeekday(date)
                           && (facility == "" || db.slots[id].facility == facility)
  }

  /** The entry for slot `id` on `date`, as seen by `caller`. */
  function ViewOf(db: Db, caller: Principal, date: Date, id: int): SlotView
    requires id in db.slots
  {
    var s := db.slots[id];
    var booked := CountFor(db.bookings, id, date);
    SlotView(id, s.facility, s.title, s.weekday, s.start, s.end, s.capacity, s.active, booked,
             Remaining(s.capacity, booked), HasBooking(db.bookings, caller.id, id, date),
             IsFull(s.capacity, booked))
  }

  function ViewKey(v: SlotView): Key { (v.facility, v.start) }

  /**
   * A correct `GET /slots` answer: one entry per selected slot, each computed
   * from the current bookings, ordered by facility then start time.
   */
  ghost predicate IsListing(db: Db, caller: Principal, date: Date, facility: string, out: seq<SlotView>)
    requires ValidDate(date)
  {
    && (forall i :: 0 <= i < |out| ==> out[i].id in Listed(db, date, facility) && out[i] == ViewOf(db, caller, date, out[i].id))
    && (forall id :: id in Listed(db, date, facility) ==> exists i :: 0 <= i < |out| && out[i].id == id)
    && (forall i, j :: 0 <= i < j < |out| ==> out[i].id != out[j].id)
    && SortedBy(out, ViewKey)
  }

  /**
   * What each entry of a listing says: the slot is active and on the date's
   * weekday; `rimasti` is `None` exactly for an unlimited slot and otherwise
   * the non-negative seats left; `pieno` holds exactly when a finite
   * capacity has no seat left; `prenotato_da_me` holds exactly when the
   * caller has a booking for it that day.
   */
  lemma ListingEntries(db: Db, caller: Principal, date: Date, facility: string, out: seq<SlotView>, i: int)
    requires ValidDate(date) && IsListing(db, caller, date, facility, out) && 0 <= i < |out|
    ensures var v := out[i];
            && v.active && v.weekday == IsoWeekday(date) && (facility == "" || v.facility == facility)
            && v.booked == CountFor(db.bookings, v.id, date)
            && (v.remaining.None? <==> v.capacity.None?)
            && (v.remaining.Some? ==> v.remaining.value >= 0)
            && (v.full <==> v.remaining == Some(0))
            && (v.mine <==> HasBooking(db.bookings, caller.id, v.id, date))
  {
    var v := out[i];
    if v.capacity.Some? {
      FullIffNoSeatLeft(v.capacity.value, v.booked);
    }
  }

  /** One entry of `GET /bookings/my`. */
  datatype MyBooking = MyBooking(bookingId: int, slotId: int, facility: string, title: string, start: string, end: string)

  /** The caller's bookings on a date joined with their slots, in table order. */
  function MyBookingsOf(bs: seq<Booking>, slots: map<int, Slot>, userId: int, date: Date): seq<MyBooking>
  {
    if bs == [] then []
    else
      var rest := MyBookingsOf(bs[..|bs| - 1], slots, userId, date);
      var b := bs[|bs| - 1];
      if b.userId == userId && b.date == date && b.slotId in slots then
        var s := slots[b.slotId];
        rest + [MyBooking(b.id, b.slotId, s.facility, s.title, s.start, s.end)]
      else rest
  }

  /** Every entry of `GET /bookings/my` is one of the caller's bookings of that date, with its slot's data. */
  lemma {:induction false} MyBookingsSound(bs: seq<Booking>, slots: map<int, Slot>, userId: int, date: Date)
    ensures forall r :: r in MyBookingsOf(bs, slots, userId, date) ==>
              exists i :: 0 <= i < |bs| && bs[i].userId == userId && bs[i].date == date && bs[i].slotId in slots
                          && r == MyBooking(bs[i].id, bs[i].slotId, slots[bs[i].slotId].facility, slots[bs[i].slotId].title,
                                            slots[bs[i].slotId].start, slots[bs[i].slotId].end)
    decreases |bs|
  {
    if bs != [] {
      var init := bs[..|bs| - 1];
      MyBookingsSound(init, slots, userId, date);
      forall i | 0 <= i < |init| ensures init[i] == bs[i] { }
    }
  }

  /** Every booking of the caller on that date (whose slot exists) appears in `GET /bookings/my`. */
  lemma {:induction false} MyBookingsComplete(bs: seq<Booking>, slots: map<int, Slot>, userId: int, date: Date)
    ensures forall i :: 0 <= i < |bs| && bs[i].userId == userId && bs[i].date == date && bs[i].slotId in slots ==>
              exists r :: r in MyBookingsOf(bs, slots, userId, date) && r.bookingId == bs[i].id
    decreases |bs|
  {
    if bs != [] {
      var init := bs[..|bs| - 1];
      var last := |bs| - 1;
      MyBookingsComplete(init, slots, userId, date);
      var rest := MyBookingsOf(init, slots, userId, date);
      var all := MyBookingsOf(bs, slots, userId, date);
      assert forall r :: r in rest ==> r in all;
      forall i | 0 <= i < |bs| && bs[i].userId == userId && bs[i].date == date && bs[i].slotId in slots
        ensures exists r :: r in all && r.bookingId == bs[i].id
      {
        if i < last {
          assert init[i] == bs[i];
        } else {
          assert all[|all| - 1] in all;
        }
      }
    }
  }

  /** One entry of `GET /admin/bookings`: `nome`, `cognome`, `gruppo`, `timestamp_creazione`. */
  datatype Booker = Booker(firstName: string, surname: string, group: string, createdAt: int)

  /** The bookings of a slot and date joined with their users, in table order. */
  function BookersOf(bs: seq<Booking>, users: map<int, User>, slotId: int, date: Date): seq<Booker>
  {
    if bs == [] then []
    else
      var rest := BookersOf(bs[..|bs| - 1], users, slotId, date);
      var b := bs[|bs| - 1];
      if b.slotId == slotId && b.date == date && b.userId in users then
        var u := users[b.userId];
        rest + [Booker(u.firstName, u.surname, u.group, b.createdAt)]
      else rest
  }

  /** The join over one more booking gains that booking's row when it matches. */
  lemma BookersOfStep(bs: seq<Booking>, i: nat, users: map<int, User>, slotId: int, date: Date)
    requires i < |bs|
    ensures var b := bs[i];
            BookersOf(bs[..i + 1], users, slotId, date)
            == BookersOf(bs[..i], users, slotId, date)
               + (if b.slotId == slotId && b.date == date && b.userId in users
                  then [Booker(users[b.userId].firstName, users[b.userId].surname, users[b.userId].group, b.createdAt)]
                  else [])
  {
    assert bs[..i + 1][..i] == bs[..i];
  }

  /** `ORDER BY cognome ASC, nome ASC`. */
  function BookerKey(r: Booker): Key { (r.surname, r.firstName) }

  /**
   * The checks of `admin_list_bookings` before its query: admin only, both
   * arguments given, the date parses, `int(slot_id)` succeeds, the slot exists.
   */
  function AuditRequest(db: Db, caller: Principal, dateArg: string, slotArg: string): (r: Result<(int, Date)>)
    ensures !caller.admin ==> r == Err(Forbidden(MsgAdminOnly))
    ensures caller.admin && (dateArg == "" || slotArg == "") ==> r == Err(BadRequest(MsgDateAndSlotRequired))
    ensures r.Ok? ==> r.value.0 in db.slots && ValidDate(r.value.1) && Some(r.value.1) == ParseDate(dateArg)
                      && Some(r.value.0) == ParseIntText(slotArg)
    ensures caller.admin && dateArg != "" && slotArg != "" ==>
              (ParseDate(dateArg).None? ==> r == Err(BadRequest(MsgInvalidDate)))
              && (ParseDate(dateArg).Some? && ParseIntText(slotArg).None? ==> r == Err(ServerError))
              && (ParseDate(dateArg).Some? && ParseIntText(slotArg).Some? ==>
                    r == if ParseIntText(slotArg).value in db.slots
                         then Ok((ParseIntText(slotArg).value, ParseDate(dateArg).value))
                         else Err(NotFound(MsgSlotNotFound)))
  {
    if !caller.admin then Err(Forbidden(MsgAdminOnly))
    else if dateArg == "" || slotArg == "" then Err(BadRequest(MsgDateAndSlotRequired))
    else
      match ParseDate(dateArg)
      case None => Err(BadRequest(MsgInvalidDate))
      case Some(d) =>
        match ParseIntText(slotArg)
        case None => Err(ServerError)
        case Some(id) => if id !in db.slots then Err(NotFound(MsgSlotNotFound)) else Ok((id, d))
  }

  /**
   * A correct `GET /admin/bookings` answer: the bookers of the slot on the
   * date, each once, ordered by surname then first name.
   */
  ghost predicate IsAuditListing(db: Db, slotId: int, date: Date, rows: seq<Booker>)
  {
    && multiset(rows) == multiset(BookersOf(db.bookings, db.users, slotId, date))
    && SortedBy(rows, BookerKey)
  }

  /** An audit listing has one entry per booking of the slot and date, and is ordered by surname. */
  lemma AuditListingShape(db: Db, slotId: int, date: Date, rows: seq<Booker>)
    requires IsAuditListing(db, slotId, date, rows)
    requires forall i :: 0 <= i < |db.bookings| ==> db.bookings[i].userId in db.users
    ensures |rows| == CountFor(db.bookings, slotId, date)
    ensures forall i, j :: 0 <= i < j < |rows| ==> StrLe(rows[i].surname, rows[j].surname)
  {
    BookersCount(db.bookings, db.users, slotId, date);
    assert |rows| == |multiset(rows)|;
    forall i, j | 0 <= i < j < |rows| ensures StrLe(rows[i].surname, rows[j].surname) {
      assert KeyLe(BookerKey(rows[i]), BookerKey(rows[j]));
      StrLeReflexive(rows[i].surname);
    }
  }

  /** With every booker a user of the table, the audit list has one entry per booking of the slot/date. */
  lemma {:induction false} BookersCount(bs: seq<Booking>, users: map<int, User>, slotId: int, date: Date)
    requires forall i :: 0 <= i < |bs| ==> bs[i].userId in users
    ensures |BookersOf(bs, users, slotId, date)| == CountFor(bs, slotId, date)
    decreases |bs|
  {
    if bs != [] {
      BookersCount(bs[..|bs| - 1], users, slotId, date);
    }
  }
}
