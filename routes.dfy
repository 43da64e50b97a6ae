/**
 * The route handlers as methods of a `Ledger` that holds the three tables and
 * updates them in place. Each handler that writes is proved to leave exactly
 * the state, and return exactly the result, of the corresponding transition
 * in `Engine`; each read-only handler is proved to return an answer meeting
 * the specification of its query.
 */
module Routes {
  import opened Wrappers
  import opened Text
  import opened Calendar
  import opened Models
  import opened Requests
  import opened Availability
  import opened Ordering
  import opened Engine

  /** A row of the slot query: the id and the slot. */
  function RowKey(row: (int, Slot)): Key
  {
    (row.1.facility, row.1.start)
  }

  /**
   * The id SQLite gives a new row of a table with an integer primary key:
   * the largest id in use plus one, or 1 for an empty table.
   */
  method AllocateRowId(ids: set<int>) returns (r: int)
    ensures r == NextRowId(ids)
    ensures forall x :: x in ids ==> x < r
  {
    r := 1;
    var rest := ids;
    var any := false;
    while rest != {}
      invariant rest <= ids
      invariant forall x :: x in ids && x !in rest ==> x < r
      invariant !any ==> r == 1 && rest == ids
      invariant any ==> r - 1 in ids
      decreases |rest|
    {
      HasMember(rest);
      var k :| k in rest;
      if !any || k >= r {
        r := k + 1;
      }
      any := true;
      rest := rest - {k};
    }
    NextRowIdUnique(ids, r);
  }

  /** Splicing one element into a sequence shifts the elements after it by one. */
  lemma Splice<T>(s: seq<T>, x: T, p: nat)
    requires p <= |s|
    ensures var r := s[..p] + [x] + s[p..];
            && |r| == |s| + 1 && r[p] == x
            && (forall i :: 0 <= i < p ==> r[i] == s[i])
            && (forall i :: p <= i < |s| ==> r[i + 1] == s[i])
  {
  }

  /** The slot rows selected so far, once the ids in `rest` remain to be looked at. */
  ghost predicate SelectedRows(db: Db, d: Date, facility: string, rest: set<int>, rows: seq<(int, Slot)>)
    requires ValidDate(d)
  {
    && (forall i :: 0 <= i < |rows| ==>
          rows[i].0 in Listed(db, d, facility) && rows[i].0 !in rest && rows[i].1 == db.slots[rows[i].0])
    && (forall id :: id in Listed(db, d, facility) && id !in rest ==> exists i :: 0 <= i < |rows| && rows[i].0 == id)
    && (forall i, j :: 0 <= i < j < |rows| ==> rows[i].0 != rows[j].0)
    && SortedBy(rows, RowKey)
  }

  /** Looking at a slot the query does not select. */
  lemma SelectSkip(db: Db, d: Date, facility: string, rest: set<int>, rows: seq<(int, Slot)>, id: int)
    requires ValidDate(d) && SelectedRows(db, d, facility, rest, rows)
    requires id in rest && id !in Listed(db, d, facility)
    ensures SelectedRows(db, d, facility, rest - {id}, rows)
  {
  }

  /** Looking at a slot the query selects: it is inserted at its place in the order. */
  lemma SelectInsert(db: Db, d: Date, facility: string, rest: set<int>, rows: seq<(int, Slot)>, id: int)
    requires ValidDate(d) && SelectedRows(db, d, facility, rest, rows)
    requires id in rest && id in Listed(db, d, facility)
    ensures SelectedRows(db, d, facility, rest - {id}, InsertBy((id, db.slots[id]), rows, RowKey))
  {
    var x := (id, db.slots[id]);
    var r := InsertBy(x, rows, RowKey);
    var p :| 0 <= p <= |rows| && r == rows[..p] + [x] + rows[p..];
    Splice(rows, x, p);
    SpliceRowsSelected(db, d, facility, rest, rows, id, p);
    SpliceRowsComplete(db, d, facility, rest, rows, id, p);
    SpliceRowsDistinct(db, d, facility, rest, rows, id, p);
  }

  lemma SpliceRowsSelected(db: Db, d: Date, facility: string, rest: set<int>, rows: seq<(int, Slot)>, id: int, p: nat)
    requires ValidDate(d) && SelectedRows(db, d, facility, rest, rows)
    requires id in rest && id in Listed(db, d, facility) && p <= |rows|
    ensures var r := rows[..p] + [(id, db.slots[id])] + rows[p..];
            forall i :: 0 <= i < |r| ==>
              r[i].0 in Listed(db, d, facility) && r[i].0 !in rest - {id} && r[i].1 == db.slots[r[i].0]
  {
    var r := rows[..p] + [(id, db.slots[id])] + rows[p..];
    Splice(rows, (id, db.slots[id]), p);
    forall i | 0 <= i < |r|
      ensures r[i].0 in Listed(db, d, facility) && r[i].0 !in rest - {id} && r[i].1 == db.slots[r[i].0]
    {
      if i < p {
        assert r[i] == rows[i];
      } else if i > p {
        assert r[i] == rows[i - 1];
      }
    }
  }

  lemma SpliceRowsComplete(db: Db, d: Date, facility: string, rest: set<int>, rows: seq<(int, Slot)>, id: int, p: nat)
    requires ValidDate(d) && SelectedRows(db, d, facility, rest, rows)
    requires id in rest && id in Listed(db, d, facility) && p <= |rows|
    ensures var r := rows[..p] + [(id, db.slots[id])] + rows[p..];
            forall k :: k in Listed(db, d, facility) && k !in rest - {id} ==> exists i :: 0 <= i < |r| && r[i].0 == k
  {
    var r := rows[..p] + [(id, db.slots[id])] + rows[p..];
    Splice(rows, (id, db.slots[id]), p);
    forall k | k in Listed(db, d, facility) && k !in rest - {id}
      ensures exists i :: 0 <= i < |r| && r[i].0 == k
    {
      if k == id {
        assert r[p].0 == id;
      } else {
        var i :| 0 <= i < |rows| && rows[i].0 == k;
        if i < p {
          assert r[i] == rows[i];
        } else {
          assert r[i + 1] == rows[i];
        }
      }
    }
  }

  lemma SpliceRowsDistinct(db: Db, d: Date, facility: string, rest: set<int>, rows: seq<(int, Slot)>, id: int, p: nat)
    requires ValidDate(d) && SelectedRows(db, d, facility, rest, rows)
    requires id in rest && id in db.slots && p <= |rows|
    ensures var r := rows[..p] + [(id, db.slots[id])] + rows[p..];
            forall i, j :: 0 <= i < j < |r| ==> r[i].0 != r[j].0
  {
    var r := rows[..p] + [(id, db.slots[id])] + rows[p..];
    Splice(rows, (id, db.slots[id]), p);
    forall i, j | 0 <= i < j < |r| ensures r[i].0 != r[j].0 {
      if i < p && j < p {
        assert r[i] == rows[i] && r[j] == rows[j];
      } else if i < p && j > p {
        assert r[i] == rows[i] && r[j] == rows[j - 1];
      } else if i > p {
        assert r[i] == rows[i - 1] && r[j] == rows[j - 1];
      }
    }
  }

  /** The views of the selected rows, in their order, form a correct listing. */
  lemma ViewsFormListing(db: Db, caller: Principal, d: Date, facility: string, rows: seq<(int, Slot)>, out: seq<SlotView>)
    requires ValidDate(d) && SelectedRows(db, d, facility, {}, rows)
    requires |out| == |rows|
    requires forall j :: 0 <= j < |out| ==> out[j] == ViewOf(db, caller, d, rows[j].0)
    ensures IsListing(db, caller, d, facility, out)
  {
    forall i, j | 0 <= i < j < |out| ensures KeyLe(ViewKey(out[i]), ViewKey(out[j])) {
      assert ViewKey(out[i]) == RowKey(rows[i]) && ViewKey(out[j]) == RowKey(rows[j]);
    }
    forall id | id in Listed(db, d, facility) ensures exists i :: 0 <= i < |out| && out[i].id == id {
      var i :| 0 <= i < |rows| && rows[i].0 == id;
      assert out[i].id == id;
    }
  }

  class Ledger {
    var users: map<int, User>
    var slots: map<int, Slot>
    var bookings: seq<Booking>

    /** The tables as a value. */
    function State(): Db
      reads this
    {
      Db(users, slots, bookings)
    }

    /** A database holding the given users and slots and no booking yet. */
    constructor(users: map<int, User>, slots: map<int, Slot>)
      ensures State() == Db(users, slots, [])
    {
      this.users := users;
      this.slots := slots;
      this.bookings := [];
    }

    /**
     * The slot query of `list_slots`: active slots on the date's weekday, of
     * the facility if one is given, ordered by facility then start time.
     */
    method SelectSlots(d: Date, facility: string) returns (rows: seq<(int, Slot)>)
      requires ValidDate(d)
      ensures SelectedRows(State(), d, facility, {}, rows)
    {
      rows := [];
      var rest := slots.Keys;
      while rest != {}
        invariant rest <= slots.Keys
        invariant SelectedRows(State(), d, facility, rest, rows)
        decreases |rest|
      {
        HasMember(rest);
        var id :| id in rest;
        var s := slots[id];
        if s.active && s.weekday == IsoWeekday(d) && (facility == "" || s.facility == facility) {
          SelectInsert(State(), d, facility, rest, rows, id);
          rows := InsertBy((id, s), rows, RowKey);
        } else {
          SelectSkip(State(), d, facility, rest, rows, id);
        }
        rest := rest - {id};
      }
    }

    /**
     * `GET /slots`: the active slots of the date's weekday (and facility),
     * ordered by facility and start time, each with its booked count, the
     * seats left, whether it is full and whether the caller holds a seat.
     */
    method ListSlots(caller: Principal, dateArg: string, facilityArg: string) returns (r: Result<seq<SlotView>>)
      ensures DateQuery(dateArg).Err? ==> r == Err(DateQuery(dateArg).failure)
      ensures DateQuery(dateArg).Ok? ==>
                r.Ok? && IsListing(State(), caller, DateQuery(dateArg).value, FacilityQuery(facilityArg), r.value)
    {
      match DateQuery(dateArg) {
        case Err(f) =>
          return Err(f);
        case Ok(d) =>
          var facility := FacilityQuery(facilityArg);
          var rows := SelectSlots(d, facility);
          var out: seq<SlotView> := [];
          for i := 0 to |rows|
            invariant |out| == i
            invariant forall j :: 0 <= j < i ==> out[j] == ViewOf(State(), caller, d, rows[j].0)
          {
            var id := rows[i].0;
            var s := rows[i].1;
            var booked := CountFor(bookings, id, d);
            out := out + [SlotView(id, s.facility, s.title, s.weekday, s.start, s.end, s.capacity, s.active, booked,
                                   Remaining(s.capacity, booked), HasBooking(bookings, caller.id, id, d),
                                   IsFull(s.capacity, booked))];
          }
          ViewsFormListing(State(), caller, d, facility, rows, out);
          return Ok(out);
      }
    }

    /** `POST /bookings`. */
    method CreateBooking(caller: Principal, slotArg: Option<Json>, dateArg: Option<Json>, commitOk: bool, now: int)
      returns (r: Result<int>)
      modifies this
      ensures r == Reserve(old(State()), caller, slotArg, dateArg, commitOk, now).result
      ensures State() == Reserve(old(State()), caller, slotArg, dateArg, commitOk, now).db
      ensures Valid(old(State())) ==> Valid(State())
    {
      match BookingRequest(slotArg, dateArg) {
        case Err(f) =>
          return Err(f);
        case Ok((slotId, d)) =>
          if slotId !in slots || !slots[slotId].active {
            return Err(NotFound(MsgSlotUnavailable));
          }
          var slot := slots[slotId];
          if IsoWeekday(d) != slot.weekday {
            return Err(BadRequest(MsgWrongWeekday));
          }
          if HasBooking(bookings, caller.id, slotId, d) {
            return Err(Conflict(MsgAlreadyBooked));
          }
          if slot.capacity.Some? {
            var booked := CountFor(bookings, slotId, d);
            if booked >= slot.capacity.value {
              return Err(Conflict(MsgSlotFull));
            }
          }
          if !commitOk {
            return Err(Conflict(MsgCommitFailed));
          }
          var id := AllocateRowId(BookingIds(bookings));
          if Valid(State()) {
            ReservePreservesValid(State(), caller.id, slotId, d, commitOk, now);
          }
          bookings := bookings + [Booking(id, caller.id, slotId, d, now)];
          return Ok(id);
      }
    }

    /** `DELETE /bookings/<id>`. */
    method DeleteBooking(caller: Principal, bookingId: int) returns (r: Result<()>)
      modifies this
      ensures r == Cancel(old(State()), caller, bookingId).result
      ensures State() == Cancel(old(State()), caller, bookingId).db
      ensures Valid(old(State())) ==> Valid(State())
    {
      if Valid(State()) {
        CancelPreservesValid(State(), caller, bookingId);
      }
      var found := FindBooking(bookings, bookingId);
      if found.None? {
        return Err(NotFound(MsgBookingNotFound));
      }
      var i := found.value;
      if bookings[i].userId != caller.id && !caller.admin {
        return Err(Forbidden(MsgNotAllowed));
      }
      bookings := RemoveAt(bookings, i);
      return Ok(());
    }

    /** `GET /bookings/my`: the caller's bookings of the date with their slots, in table order. */
    method MyBookings(caller: Principal, dateArg: string) returns (r: Result<seq<MyBooking>>)
      ensures DateQuery(dateArg).Err? ==> r == Err(DateQuery(dateArg).failure)
      ensures DateQuery(dateArg).Ok? ==> r == Ok(MyBookingsOf(bookings, slots, caller.id, DateQuery(dateArg).value))
    {
      match DateQuery(dateArg) {
        case Err(f) =>
          return Err(f);
        case Ok(d) =>
          var out: seq<MyBooking> := [];
          for i := 0 to |bookings|
            invariant out == MyBookingsOf(bookings[..i], slots, caller.id, d)
          {
            var b := bookings[i];
            assert bookings[..i + 1][..i] == bookings[..i];
            if b.userId == caller.id && b.date == d && b.slotId in slots {
              var s := slots[b.slotId];
              out := out + [MyBooking(b.id, b.slotId, s.facility, s.title, s.start, s.end)];
            }
          }
          assert bookings[..|bookings|] == bookings;
          return Ok(out);
      }
    }

    /** `POST /admin/slots`. */
    method AdminCreateSlot(caller: Principal, data: Body) returns (r: Result<int>)
      modifies this
      ensures r == CreateSlot(old(State()), caller, data).result
      ensures State() == CreateSlot(old(State()), caller, data).db
      ensures Valid(old(State())) ==> Valid(State())
    {
      if Valid(State()) {
        CreateSlotPreservesValid(State(), caller, data);
      }
      if !caller.admin {
        return Err(Forbidden(MsgAdminOnly));
      }
      var required := RequiredSlotFields;
      for i := 0 to |required|
        invariant forall j :: 0 <= j < i ==> !Missing(data, required[j])
      {
        if Missing(data, required[i]) {
          FirstMissingAt(data, required, i);
          return Err(BadRequest("Missing " + required[i]));
        }
      }
      assert FirstMissing(data, required).None?;
      match SlotFromBody(data) {
        case Err(f) =>
          return Err(f);
        case Ok(s) =>
          var id := AllocateRowId(slots.Keys);
          slots := slots[id := s];
          return Ok(id);
      }
    }

    /**
     * `PUT /admin/slots/<id>`: the loop over the updatable fields on a copy of
     * the slot, then `capienza`; the slot is written only when every
     * conversion succeeded, as the aborted request is never committed.
     */
    method AdminUpdateSlot(caller: Principal, slotId: int, data: Body) returns (r: Result<()>)
      modifies this
      ensures r == UpdateSlot(old(State()), caller, slotId, data).result
      ensures State() == UpdateSlot(old(State()), caller, slotId, data).db
      ensures Valid(old(State())) ==> Valid(State())
    {
      if Valid(State()) {
        UpdatePreservesValid(State(), caller, slotId, data);
      }
      if !caller.admin {
        return Err(Forbidden(MsgAdminOnly));
      }
      if slotId !in slots {
        return Err(NotFound(MsgSlotNotFound));
      }
      var s := slots[slotId];
      assert UpdatableFields[2] == Weekday;
      for i := 0 to |UpdatableFields|
        invariant s == Patch(slots[slotId], data, i)
        invariant i > 2 ==> !("giorno_settimana" in data && PyInt(data["giorno_settimana"]).None?)
      {
        var f := UpdatableFields[i];
        var name := FieldName(f);
        if name in data {
          if f == Weekday && PyInt(data[name]).None? {
            return Err(ServerError);
          }
          s := SetField(s, f, data[name]);
        }
      }
      if "capienza" in data {
        match CapacityArg(Some(data["capienza"])) {
          case Err(f) =>
            return Err(f);
          case Ok(c) =>
            s := s.(capacity := c);
        }
      }
      slots := slots[slotId := s];
      return Ok(());
    }

    /** `POST /admin/slots/<id>/deactivate`. */
    method AdminDeactivateSlot(caller: Principal, slotId: int) returns (r: Result<()>)
      modifies this
      ensures r == DeactivateSlot(old(State()), caller, slotId).result
      ensures State() == DeactivateSlot(old(State()), caller, slotId).db
      ensures Valid(old(State())) ==> Valid(State())
    {
      if Valid(State()) {
        DeactivatePreservesValid(State(), caller, slotId);
      }
      if !caller.admin {
        return Err(Forbidden(MsgAdminOnly));
      }
      if slotId !in slots {
        return Err(NotFound(MsgSlotNotFound));
      }
      slots := slots[slotId := slots[slotId].(active := false)];
      return Ok(());
    }

    /** `GET /admin/bookings`: who booked a slot on a date, ordered by surname then first name. */
    method AdminListBookings(caller: Principal, dateArg: string, slotArg: string) returns (r: Result<seq<Booker>>)
      ensures AuditRequest(State(), caller, dateArg, slotArg).Err? ==>
                r == Err(AuditRequest(State(), caller, dateArg, slotArg).failure)
      ensures AuditRequest(State(), caller, dateArg, slotArg).Ok? ==>
                var (slotId, d) := AuditRequest(State(), caller, dateArg, slotArg).value;
                r.Ok? && IsAuditListing(State(), slotId, d, r.value)
    {
      match AuditRequest(State(), caller, dateArg, slotArg) {
        case Err(f) =>
          return Err(f);
        case Ok((slotId, d)) =>
          var rows: seq<Booker> := [];
          for i := 0 to |bookings|
            invariant multiset(rows) == multiset(BookersOf(bookings[..i], users, slotId, d))
            invariant SortedBy(rows, BookerKey)
          {
            var b := bookings[i];
            BookersOfStep(bookings, i, users, slotId, d);
            if b.slotId == slotId && b.date == d && b.userId in users {
              var u := users[b.userId];
              rows := InsertBy(Booker(u.firstName, u.surname, u.group, b.createdAt), rows, BookerKey);
            }
          }
          assert bookings[..|bookings|] == bookings;
          return Ok(rows);
      }
    }
  }
}
